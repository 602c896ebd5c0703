/**
 One wallet per handle, which no index keeps: the (task, handle) index does not cover a second task,
 and the wallet's lock does not cover the read of other wallets' handles.
 */
module HandleExclusivity {
  import opened Wrappers
  import opened Calendar
  import opened CampaignRules
  import opened PointsLedger
  import opened Campaign

  /** What handleUsedByOtherWallet reads when nothing else is in flight. */
  ghost predicate UsedByOtherWallet(claims: seq<Claim>, handle: string, wallet: string) {
    exists i ::
      0 <= i < |claims| && !claims[i].deleted && claims[i].handle == handle && Lower(claims[i].address) != wallet
  }

  /** No two wallets hold active claims with one handle. */
  ghost predicate HandlesAreExclusive(claims: seq<Claim>) {
    forall i, j ::
      && 0 <= i < |claims| && 0 <= j < |claims|
      && !claims[i].deleted && !claims[j].deleted && claims[i].handle == claims[j].handle
      ==> Lower(claims[i].address) == Lower(claims[j].address)
  }

  /** The claim's unlocked read of other wallets' handles is still true when the claim is written. */
  ghost predicate ReadIsFresh(s: State, e: Event) {
    e.ClaimEvent? ==> e.usedElsewhere == UsedByOtherWallet(s.claims, e.handle, Lower(e.address))
  }

  predicate IsAcceptedClaim(s: State, e: Event) {
    e.ClaimEvent? && ClaimTask(s, e.gate, e.address, e.task, e.taskAvailable, e.handle, e.usedElsewhere).1.None?
  }

  lemma NewClaimSharesNoHandle(claims: seq<Claim>, c: Claim)
    requires HandlesAreExclusive(claims) && !c.deleted
    ensures HandlesAreExclusive(claims + [c]) <==> !UsedByOtherWallet(claims, c.handle, Lower(c.address))
  {
    var more := claims + [c];
    assert more[|claims|] == c;
    if i :| 0 <= i < |claims| && !claims[i].deleted && claims[i].handle == c.handle
            && Lower(claims[i].address) != Lower(c.address) {
      assert more[i] == claims[i];
    }
  }

  lemma DeletedClaimSharesNoHandle(claims: seq<Claim>, id: nat)
    requires HandlesAreExclusive(claims) && id < |claims|
    ensures HandlesAreExclusive(claims[id := claims[id].(deleted := true, handle := DELETED_HANDLE)])
  {
  }

  /** What an accepted claim adds, and that its read said no other wallet had the handle. */
  lemma AcceptedClaimIsAdded(s: State, e: Event)
    requires IsAcceptedClaim(s, e)
    ensures !e.usedElsewhere
    ensures |Apply(s, e).claims| == |s.claims| + 1
    ensures var c := Apply(s, e).claims[|s.claims|];
            && Apply(s, e).claims == s.claims + [c]
            && !c.deleted && c.handle == e.handle && Lower(c.address) == Lower(e.address)
  {
    hide Sum, Conflicts, ClaimKeyTaken, ActiveClaimsOf, StatusRefusal;
    FoundEnrollment(s.enrollments, e.address);
  }

  lemma OtherEventsAddNoClaim(s: State, e: Event)
    requires !IsAcceptedClaim(s, e)
    ensures Apply(s, e).claims == s.claims
            || exists id: nat :: id < |s.claims|
                 && Apply(s, e).claims == s.claims[id := s.claims[id].(deleted := true, handle := DELETED_HANDLE)]
  {
    hide Sum, Conflicts, ClaimKeyTaken, ActiveClaimsOf, ClaimRefusal, EnrollRefusal, StatusRefusal, FindEnrollment,
         FindEnrollmentByCode, InsertIdempotent, PerksFor, InsertPerks, FindSocialRow;
  }

  /** The one step that can break exclusivity is an accepted claim, and it does exactly when its read was stale. */
  lemma StepKeepsHandlesExactly(s: State, e: Event)
    requires HandlesAreExclusive(s.claims)
    ensures HandlesAreExclusive(Apply(s, e).claims) <==> (IsAcceptedClaim(s, e) ==> ReadIsFresh(s, e))
  {
    hide HandlesAreExclusive, Apply, UsedByOtherWallet, IsAcceptedClaim;
    if IsAcceptedClaim(s, e) {
      AcceptedClaimIsAdded(s, e);
      assert e.ClaimEvent? by { IsClaim(s, e); }
      NewClaimSharesNoHandle(s.claims, Apply(s, e).claims[|s.claims|]);
    } else {
      OtherEventsAddNoClaim(s, e);
      if Apply(s, e).claims != s.claims {
        var id: nat :| id < |s.claims|
          && Apply(s, e).claims == s.claims[id := s.claims[id].(deleted := true, handle := DELETED_HANDLE)];
        DeletedClaimSharesNoHandle(s.claims, id);
      }
    }
  }

  lemma IsClaim(s: State, e: Event)
    requires IsAcceptedClaim(s, e)
    ensures e.ClaimEvent?
  {
  }

  /** The state before step `k` of a history. */
  function Before(s: State, events: seq<Event>, k: nat): State
    requires k <= |events|
  {
    History(s, events[..k])
  }

  lemma BeforeSteps(s: State, events: seq<Event>, k: nat)
    requires k < |events|
    ensures Before(s, events, k + 1) == Apply(Before(s, events, k), events[k])
  {
    hide Apply, History;
    assert events[..k + 1] == events[..k] + [events[k]];
    HistoryStep(s, events[..k], events[k]);
  }

  ghost predicate FreshUpTo(s: State, events: seq<Event>, n: nat)
    requires n <= |events|
  {
    forall k :: 0 <= k < n && IsAcceptedClaim(Before(s, events, k), events[k]) ==>
      ReadIsFresh(Before(s, events, k), events[k])
  }

  lemma {:induction false} ExclusiveUpToExactly(s: State, events: seq<Event>, n: nat)
    requires HandlesAreExclusive(s.claims) && n <= |events|
    ensures (forall k :: 0 <= k <= n ==> HandlesAreExclusive(Before(s, events, k).claims)) <==> FreshUpTo(s, events, n)
    decreases n
  {
    hide HandlesAreExclusive, IsAcceptedClaim, ReadIsFresh, Before;
    if n == 0 {
      NothingYet(s, events);
    } else {
      ExclusiveUpToExactly(s, events, n - 1);
      BeforeSteps(s, events, n - 1);
      if HandlesAreExclusive(Before(s, events, n - 1).claims) {
        StepKeepsHandlesExactly(Before(s, events, n - 1), events[n - 1]);
      }
    }
  }

  lemma NothingYet(s: State, events: seq<Event>)
    ensures Before(s, events, 0) == s
  {
  }

  /**
   One wallet per handle holds at every point of a history if and only if every accepted claim's read
   of other wallets' handles was still true when the claim was written.
   */
  lemma HandleExclusivityNeedsFreshReads(events: seq<Event>)
    ensures (forall k :: 0 <= k <= |events| ==> HandlesAreExclusive(Before(EMPTY, events, k).claims))
            <==> FreshUpTo(EMPTY, events, |events|)
  {
    assert HandlesAreExclusive(EMPTY.claims);
    hide HandlesAreExclusive, FreshUpTo, Before;
    ExclusiveUpToExactly(EMPTY, events, |events|);
  }

  /** With claims as atomic steps, reads included, no reachable state gives two wallets one handle. */
  lemma AtomicClaimsKeepHandlesExclusive(events: seq<Event>)
    requires forall k :: 0 <= k < |events| ==> ReadIsFresh(Before(EMPTY, events, k), events[k])
    ensures HandlesAreExclusive(History(EMPTY, events).claims)
  {
    hide HandlesAreExclusive, ReadIsFresh, IsAcceptedClaim;
    HandleExclusivityNeedsFreshReads(events);
    assert events[..|events|] == events;
    assert History(EMPTY, events) == Before(EMPTY, events, |events|);
  }

  // ---- The failing history ----

  const OPEN := Gate(true, Window(Some(0), None), true)

  /** Two wallets claim different tasks with one handle; the second one's read was made before the first one's write. */
  function RacingClaims(a: string, b: string, codes: (string, string), handle: string): seq<Event> {
    [EnrollEvent(OPEN, a, (codes.0, codes.0), None), EnrollEvent(OPEN, b, (codes.1, codes.1), None),
     ClaimEvent(OPEN, a, Some(XFollow), true, handle, false),
     ClaimEvent(OPEN, b, Some(CommunityJoin), true, handle, false)]
  }

  lemma NewWalletEnrolls(s: State, a: string, code: string)
    requires s.nowMs == 0 && FindEnrollment(s.enrollments, a).None? && FindEnrollmentByCode(s.enrollments, code).None?
    ensures Apply(s, EnrollEvent(OPEN, a, (code, code), None)) ==
            s.(enrollments := s.enrollments + [Enrollment(a, code)])
  {
    hide Lower, FindEnrollment, FindEnrollmentByCode;
  }

  lemma TwoWalletsEnroll(a: string, b: string, codes: (string, string), handle: string)
    requires Lower(a) != Lower(b) && codes.0 != codes.1
    ensures var events := RacingClaims(a, b, codes, handle);
            Apply(Apply(EMPTY, events[0]), events[1]) ==
            EMPTY.(enrollments := [Enrollment(a, codes.0), Enrollment(b, codes.1)])
  {
    hide Lower, Apply;
    NewWalletEnrolls(EMPTY, a, codes.0);
    var s1 := EMPTY.(enrollments := [Enrollment(a, codes.0)]);
    assert EMPTY.enrollments + [Enrollment(a, codes.0)] == s1.enrollments;
    assert s1.enrollments[1..] == [];
    NewWalletEnrolls(s1, b, codes.1);
    assert s1.enrollments + [Enrollment(b, codes.1)] == [Enrollment(a, codes.0), Enrollment(b, codes.1)];
  }

  lemma NothingClaimed(s: State, c: Claim, row: Row, day: Civil)
    requires s.claims == [] && s.ledger == []
    ensures ActiveClaimsOf(s.claims, Lower(c.address)) == [] && Sum(s.ledger, SocialGrossOn(Lower(c.address), day)) == 0
    ensures !ClaimKeyTaken(s.claims, c) && !Conflicts(s.ledger, row)
    ensures s.claims + [c] == [c] && s.ledger + [row] == [row]
  {
  }

  lemma FirstClaimIsAllowed(handle: string)
    ensures ClaimRefusal(OPEN, 0, Some(XFollow), true, handle, [], false, 0) == None
  {
  }

  lemma FirstClaim(s: State, a: string, handle: string)
    requires s.nowMs == 0 && s.claims == [] && s.ledger == []
    requires FindEnrollment(s.enrollments, a).Some? && FindEnrollment(s.enrollments, a).value.address == a
    ensures ClaimTask(s, OPEN, a, Some(XFollow), true, handle, false) ==
            (s.(claims := [Claim(a, XFollow, handle, false)], ledger := [SocialRow(a, XFollow, 0, Today(s))]), None)
  {
    hide Lower, FindEnrollment, Today, ActiveClaimsOf, Sum, ClaimRefusal, ClaimKeyTaken, Conflicts, SocialRow;
    var c := Claim(a, XFollow, handle, false);
    NothingClaimed(s, c, SocialRow(a, XFollow, 0, Today(s)), Today(s));
    FirstClaimIsAllowed(handle);
  }

  lemma SecondClaim(s: State, a: string, b: string, handle: string)
    requires s.nowMs == 0 && s.claims == [Claim(a, XFollow, handle, false)]
    requires s.ledger == [SocialRow(a, XFollow, 0, Today(s))]
    requires Lower(a) != Lower(b)
    requires FindEnrollment(s.enrollments, b).Some? && FindEnrollment(s.enrollments, b).value.address == b
    ensures ClaimTask(s, OPEN, b, Some(CommunityJoin), true, handle, false).1.None?
    ensures ClaimTask(s, OPEN, b, Some(CommunityJoin), true, handle, false).0.claims ==
            [Claim(a, XFollow, handle, false), Claim(b, CommunityJoin, handle, false)]
  {
    hide Lower, FindEnrollment, Today;
    assert s.claims[1..] == [] && ActiveClaimsOf(s.claims, Lower(b)) == [];
    assert s.ledger[..0] == [] && Sum(s.ledger, SocialGrossOn(Lower(b), Today(s))) == 0;
  }

  /** A reachable state in which two wallets hold one handle. */
  lemma RacingClaimsShareAHandle(a: string, b: string, codes: (string, string), handle: string)
    requires Lower(a) != Lower(b) && codes.0 != codes.1
    ensures var s := History(EMPTY, RacingClaims(a, b, codes, handle));
            && s.claims == [Claim(a, XFollow, handle, false), Claim(b, CommunityJoin, handle, false)]
            && !HandlesAreExclusive(s.claims)
  {
    var events := RacingClaims(a, b, codes, handle);
    FourSteps(EMPTY, events);
    TwoWalletsEnroll(a, b, codes, handle);
    var s2 := EMPTY.(enrollments := [Enrollment(a, codes.0), Enrollment(b, codes.1)]);
    RacesFrom(s2, a, b, codes, handle);
    hide *;
    SharedHandle(History(EMPTY, events).claims, a, b, handle);
  }

  lemma RacesFrom(s: State, a: string, b: string, codes: (string, string), handle: string)
    requires Lower(a) != Lower(b) && s == EMPTY.(enrollments := [Enrollment(a, codes.0), Enrollment(b, codes.1)])
    ensures var events := RacingClaims(a, b, codes, handle);
            Apply(Apply(s, events[2]), events[3]).claims ==
            [Claim(a, XFollow, handle, false), Claim(b, CommunityJoin, handle, false)]
  {
    hide ClaimTask, Lower, FindEnrollment, Today;
    FoundInPair(a, b, codes);
    FirstClaim(s, a, handle);
    var s3 := ClaimTask(s, OPEN, a, Some(XFollow), true, handle, false).0;
    assert Today(s3) == Today(s) by { SameClock(s, s3); }
    SecondClaim(s3, a, b, handle);
  }

  lemma SameClock(s: State, t: State)
    requires s.nowMs == t.nowMs
    ensures Today(s) == Today(t)
  {
  }

  lemma SharedHandle(claims: seq<Claim>, a: string, b: string, handle: string)
    requires Lower(a) != Lower(b)
    requires claims == [Claim(a, XFollow, handle, false), Claim(b, CommunityJoin, handle, false)]
    ensures !HandlesAreExclusive(claims)
  {
    assert claims[0].handle == claims[1].handle;
  }

  lemma FoundInPair(a: string, b: string, codes: (string, string))
    requires Lower(a) != Lower(b)
    ensures var es := [Enrollment(a, codes.0), Enrollment(b, codes.1)];
            FindEnrollment(es, a) == Some(es[0]) && FindEnrollment(es, b) == Some(es[1])
  {
    hide Lower;
    var es := [Enrollment(a, codes.0), Enrollment(b, codes.1)];
    assert es[1..] == [es[1]];
  }

  lemma FourSteps(s: State, e: seq<Event>)
    requires |e| == 4
    ensures History(s, e) == Apply(Apply(Apply(Apply(s, e[0]), e[1]), e[2]), e[3])
  {
    hide Apply, History;
    NoHistory(s);
    HistoryStep(s, [], e[0]);
    HistoryStep(s, [e[0]], e[1]);
    HistoryStep(s, [e[0], e[1]], e[2]);
    HistoryStep(s, [e[0], e[1], e[2]], e[3]);
    assert [] + [e[0]] == [e[0]] && [e[0]] + [e[1]] == [e[0], e[1]];
    assert [e[0], e[1]] + [e[2]] == [e[0], e[1], e[2]] && [e[0], e[1], e[2]] + [e[3]] == e;
  }
}

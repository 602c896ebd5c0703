/**
 Conservation of social points: whatever claims and deletes happen, and however stale the reads of
 other wallets' handles are, a wallet's social rows and reversals add up to its active claims.
 */
module SocialClaims {
  import opened Wrappers
  import opened Calendar
  import opened CampaignRules
  import opened PointsLedger
  import opened Campaign

  /** Task points of a wallet's active claims. */
  function ActivePoints(claims: seq<Claim>, wallet: string): nat {
    if claims == [] then 0
    else
      var last := claims[|claims| - 1];
      ActivePoints(claims[..|claims| - 1], wallet) + if IsActiveClaimOf(last, wallet) then TaskPoints(last.task) else 0
  }

  /** Active claims are one per (wallet, task), one per (task, handle), and share a wallet's handle. */
  ghost predicate ClaimsAreExclusive(claims: seq<Claim>) {
    forall i, j :: 0 <= i < j < |claims| && !claims[i].deleted && !claims[j].deleted ==>
      && (claims[i].task == claims[j].task ==>
            Lower(claims[i].address) != Lower(claims[j].address) && claims[i].handle != claims[j].handle)
      && (Lower(claims[i].address) == Lower(claims[j].address) ==> claims[i].handle == claims[j].handle)
  }

  /** Every claim was credited by one row with its task's points. */
  ghost predicate ClaimsAreCredited(claims: seq<Claim>, ledger: seq<Row>) {
    forall id :: 0 <= id < |claims| ==>
      var row := FindSocialRow(ledger, id);
      && row.Some? && row.value < |ledger|
      && ledger[row.value].points == TaskPoints(claims[id].task)
      && Lower(ledger[row.value].address) == Lower(claims[id].address)
  }

  ghost predicate SocialRowsAreClaims(claims: seq<Claim>, ledger: seq<Row>) {
    forall i :: 0 <= i < |ledger| && ledger[i].reason.Social? ==>
      ledger[i].reference.SocialClaim? && ledger[i].reference.claimId < |claims|
  }

  ghost predicate SocialConserved(claims: seq<Claim>, ledger: seq<Row>) {
    forall wallet :: Sum(ledger, SocialNetOf(wallet)) == ActivePoints(claims, wallet)
  }

  /** The gross daily cap, deleted claims included. */
  ghost predicate SocialCapped(ledger: seq<Row>) {
    forall wallet, day :: Sum(ledger, SocialGrossOn(wallet, day)) <= SOCIAL_DAILY_CAP
  }

  ghost predicate SocialOk(claims: seq<Claim>, ledger: seq<Row>) {
    && ClaimsAreExclusive(claims)
    && ClaimsAreCredited(claims, ledger)
    && SocialRowsAreClaims(claims, ledger)
    && SocialConserved(claims, ledger)
    && SocialCapped(ledger)
  }

  lemma NoClaims()
    ensures SocialOk([], [])
  {
  }

  lemma SocialRowFoundAgain(ledger: seq<Row>, row: Row, id: nat)
    ensures FindSocialRow(ledger, id).Some? ==> FindSocialRow(ledger + [row], id) == FindSocialRow(ledger, id)
    ensures FindSocialRow(ledger, id).None? && row.reason.Social? && row.reference == SocialClaim(id) ==>
              FindSocialRow(ledger + [row], id) == Some(|ledger|)
  {
    assert (ledger + [row])[..|ledger|] == ledger;
  }

  lemma CreditsSurvive(claims: seq<Claim>, ledger: seq<Row>, row: Row)
    requires ClaimsAreCredited(claims, ledger)
    ensures ClaimsAreCredited(claims, ledger + [row])
  {
    hide FindSocialRow;
    forall id | 0 <= id < |claims| ensures FindSocialRow(ledger + [row], id) == FindSocialRow(ledger, id) {
      SocialRowFoundAgain(ledger, row, id);
    }
  }

  /** Rows of every other family leave the social books alone. */
  lemma OtherRowsAreIgnored(claims: seq<Claim>, ledger: seq<Row>, row: Row)
    requires SocialOk(claims, ledger) && !row.reason.Social? && row.reason != SocialDelete
    ensures SocialOk(claims, ledger + [row])
  {
    hide ClaimsAreExclusive, ClaimsAreCredited, Sum;
    CreditsSurvive(claims, ledger, row);
    forall sel: Selector { Appended(ledger, row, sel); }
  }

  lemma {:induction false} NoSocialRow(claims: seq<Claim>, ledger: seq<Row>, id: nat)
    requires SocialRowsAreClaims(claims, ledger) && id >= |claims|
    ensures FindSocialRow(ledger, id).None?
  {
    if ledger != [] {
      NoSocialRow(claims, ledger[..|ledger| - 1], id);
    }
  }

  lemma {:induction false} ActiveClaimsAreListed(claims: seq<Claim>, wallet: string, i: nat)
    requires i < |claims| && IsActiveClaimOf(claims[i], wallet)
    ensures claims[i] in ActiveClaimsOf(claims, wallet)
  {
    if i > 0 {
      ActiveClaimsAreListed(claims[1..], wallet, i - 1);
    }
  }

  /** A claim that passes the decision and both indexes keeps the claims exclusive. */
  lemma NewClaimIsExclusive(claims: seq<Claim>, c: Claim)
    requires ClaimsAreExclusive(claims) && !ClaimKeyTaken(claims, c)
    requires forall k :: k in ActiveClaimsOf(claims, Lower(c.address)) ==> k.handle == c.handle
    ensures ClaimsAreExclusive(claims + [c])
  {
    forall i | 0 <= i < |claims| && !claims[i].deleted && Lower(claims[i].address) == Lower(c.address)
      ensures claims[i].handle == c.handle
    {
      ActiveClaimsAreListed(claims, Lower(c.address), i);
    }
  }

  lemma ClaimIsCredited(claims: seq<Claim>, ledger: seq<Row>, c: Claim, day: Civil)
    requires ClaimsAreCredited(claims, ledger) && SocialRowsAreClaims(claims, ledger)
    ensures var row := SocialRow(c.address, c.task, |claims|, day);
            ClaimsAreCredited(claims + [c], ledger + [row]) && SocialRowsAreClaims(claims + [c], ledger + [row])
  {
    hide FindSocialRow;
    var row := SocialRow(c.address, c.task, |claims|, day);
    NoSocialRow(claims, ledger, |claims|);
    SocialRowFoundAgain(ledger, row, |claims|);
    CreditsSurvive(claims, ledger, row);
  }

  lemma ClaimMovesSums(claims: seq<Claim>, ledger: seq<Row>, c: Claim, day: Civil)
    requires SocialConserved(claims, ledger) && SocialCapped(ledger) && !c.deleted
    requires Sum(ledger, SocialGrossOn(Lower(c.address), day)) + TaskPoints(c.task) <= SOCIAL_DAILY_CAP
    ensures var row := SocialRow(c.address, c.task, |claims|, day);
            SocialConserved(claims + [c], ledger + [row]) && SocialCapped(ledger + [row])
  {
    hide Sum;
    var row := SocialRow(c.address, c.task, |claims|, day);
    assert (claims + [c])[..|claims|] == claims;
    forall sel: Selector { Appended(ledger, row, sel); }
  }

  lemma ClaimKeepsBooks(claims: seq<Claim>, ledger: seq<Row>, c: Claim, day: Civil)
    requires SocialOk(claims, ledger) && !c.deleted && !ClaimKeyTaken(claims, c)
    requires forall k :: k in ActiveClaimsOf(claims, Lower(c.address)) ==> k.handle == c.handle
    requires Sum(ledger, SocialGrossOn(Lower(c.address), day)) + TaskPoints(c.task) <= SOCIAL_DAILY_CAP
    ensures SocialOk(claims + [c], ledger + [SocialRow(c.address, c.task, |claims|, day)])
  {
    hide Sum, ClaimsAreExclusive, ClaimKeyTaken, ClaimsAreCredited, SocialRowsAreClaims, SocialConserved,
         SocialCapped, ActiveClaimsOf;
    NewClaimIsExclusive(claims, c);
    ClaimIsCredited(claims, ledger, c, day);
    ClaimMovesSums(claims, ledger, c, day);
  }

  lemma {:induction false} DeletingMovesPoints(claims: seq<Claim>, id: nat, wallet: string)
    requires id < |claims| && !claims[id].deleted
    ensures var after := claims[id := claims[id].(deleted := true, handle := DELETED_HANDLE)];
            var lost := if Lower(claims[id].address) == wallet then TaskPoints(claims[id].task) else 0;
            ActivePoints(after, wallet) == ActivePoints(claims, wallet) - lost
  {
    var after := claims[id := claims[id].(deleted := true, handle := DELETED_HANDLE)];
    var n := |claims| - 1;
    if id == n {
      assert after[..n] == claims[..n];
    } else {
      assert after[..n] == claims[..n][id := claims[id].(deleted := true, handle := DELETED_HANDLE)];
      DeletingMovesPoints(claims[..n], id, wallet);
    }
  }

  lemma DeleteKeepsBooks(claims: seq<Claim>, ledger: seq<Row>, id: nat, row: Row)
    requires SocialOk(claims, ledger) && id < |claims| && !claims[id].deleted
    requires row == ReversalRow(row.address, TaskPoints(claims[id].task), FindSocialRow(ledger, id).value)
    requires Lower(row.address) == Lower(claims[id].address)
    ensures SocialOk(claims[id := claims[id].(deleted := true, handle := DELETED_HANDLE)], ledger + [row])
  {
    hide FindSocialRow, Sum;
    CreditsSurvive(claims, ledger, row);
    forall wallet { DeletingMovesPoints(claims, id, wallet); }
    forall sel: Selector { Appended(ledger, row, sel); }
  }

  /** Claiming and removing are the only transactions that touch the social books, and they keep them. */
  lemma ClaimTaskKeepsBooks(s: State, g: Gate, address: string, task: Option<SocialTask>, taskAvailable: bool,
                            handle: string, usedElsewhere: bool)
    requires SocialOk(s.claims, s.ledger)
    ensures var s' := ClaimTask(s, g, address, task, taskAvailable, handle, usedElsewhere).0;
            SocialOk(s'.claims, s'.ledger)
  {
    hide SocialOk, Sum, ClaimKeyTaken, Conflicts;
    var (s', refusal) := ClaimTask(s, g, address, task, taskAvailable, handle, usedElsewhere);
    if refusal.None? {
      var e := FindEnrollment(s.enrollments, address).value;
      var c := Claim(e.address, task.value, handle, false);
      ClaimKeepsBooks(s.claims, s.ledger, c, Today(s));
    }
  }

  lemma RemoveClaimKeepsBooks(s: State, proven: bool, address: string, id: nat)
    requires SocialOk(s.claims, s.ledger)
    ensures var s' := RemoveClaim(s, proven, address, id).0;
            SocialOk(s'.claims, s'.ledger)
  {
    hide ClaimsAreExclusive, Sum, FindSocialRow;
    var (s', refusal) := RemoveClaim(s, proven, address, id);
    if refusal.None? {
      var e := FindEnrollment(s.enrollments, address).value;
      DeleteKeepsBooks(s.claims, s.ledger, id,
                       ReversalRow(e.address, TaskPoints(s.claims[id].task), FindSocialRow(s.ledger, id).value));
    }
  }
}

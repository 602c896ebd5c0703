/**
 The append-only points ledger: its rows, the unique keys that make every insert idempotent, and
 the counts and sums that the campaign reads from it. A balance is always a sum, never stored.
 */
module PointsLedger {
  import opened Wrappers
  import opened Calendar
  import opened CampaignRules
  import opened Text

  /** lower(address): ASCII is enough, since a stored address is a StrKey. */
  function Lower(s: string): string {
    seq(|s|, i requires 0 <= i < |s| => LowerAscii(s[i]))
  }

  datatype SocialTask = XFollow | XRepost | CommunityJoin

  datatype Reason =
    | Action(kind: ActionKind)
    | StreakDaily
    | Social(task: SocialTask)
    | ReferralReferrer
    | ReferralReferee
    | SocialDelete // 'adjust:social-delete'

  /** The one typed reference column that each family of reasons fills. */
  datatype Reference =
    | WitnessTx(txHash: string)
    | CheckinDay(day: Civil)
    | SocialClaim(claimId: nat)
    | Referee(address: string)
    | Adjusts(ledgerId: nat)

  datatype Row = Row(address: string, reason: Reason, basePoints: nat, multiplier: int, points: int,
                     reference: Reference, countedDay: Option<Civil>)

  /** Two rows that one partial unique index keeps apart. */
  predicate SameUniqueKey(a: Row, b: Row) {
    && a.reason == b.reason
    && a.reference == b.reference
    && !a.reference.Adjusts?
    && (a.reference.CheckinDay? ==> Lower(a.address) == Lower(b.address))
  }

  predicate Conflicts(ledger: seq<Row>, row: Row) {
    exists i :: 0 <= i < |ledger| && SameUniqueKey(ledger[i], row)
  }

  /** insert … on conflict do nothing */
  function InsertIdempotent(ledger: seq<Row>, row: Row): seq<Row> {
    if Conflicts(ledger, row) then ledger else ledger + [row]
  }

  ghost predicate UniqueKeysHold(ledger: seq<Row>) {
    forall i, j :: 0 <= i < j < |ledger| ==> !SameUniqueKey(ledger[i], ledger[j])
  }

  /** Whatever order inserts come in, from however many writers, no unique key is taken twice. */
  lemma InsertKeepsUniqueKeys(ledger: seq<Row>, row: Row)
    requires UniqueKeysHold(ledger)
    ensures UniqueKeysHold(InsertIdempotent(ledger, row))
    ensures Conflicts(InsertIdempotent(ledger, row), row) || row.reference.Adjusts?
    ensures var l := InsertIdempotent(ledger, row); InsertIdempotent(l, row) == l || row.reference.Adjusts?
  {
    var l := InsertIdempotent(ledger, row);
    if !row.reference.Adjusts? && l != ledger {
      assert SameUniqueKey(l[|l| - 1], row);
    }
  }

  lemma InsertedNewRow(ledger: seq<Row>, rows: seq<Row>, i: nat)
    requires i < |rows| && !Conflicts(ledger + rows[..i], rows[i])
    ensures InsertIdempotent(ledger + rows[..i], rows[i]) == ledger + rows[..i + 1]
  {
    assert rows[..i + 1] == rows[..i] + [rows[i]];
  }

  /** The where-clauses the campaign sums and counts over; `wallet` is a lowercase address. */
  datatype Selector =
    | AllOf(wallet: string)
    | ActionsOn(wallet: string, kind: ActionKind, on: Civil)
    | StreakRowsOf(wallet: string)
    | SocialGrossOn(wallet: string, on: Civil)
    | SocialNetOf(wallet: string)
    | ReferralRows

  predicate Selects(sel: Selector, r: Row) {
    match sel
    case AllOf(w) => Lower(r.address) == w
    case ActionsOn(w, kind, on) => Lower(r.address) == w && r.reason == Action(kind) && r.countedDay == Some(on)
    case StreakRowsOf(w) => Lower(r.address) == w && r.reason == StreakDaily
    case SocialGrossOn(w, on) => Lower(r.address) == w && r.reason.Social? && r.countedDay == Some(on)
    case SocialNetOf(w) => Lower(r.address) == w && (r.reason.Social? || r.reason == SocialDelete)
    case ReferralRows => r.reason.ReferralReferrer? || r.reason.ReferralReferee?
  }

  function Count(ledger: seq<Row>, sel: Selector): nat {
    if ledger == [] then 0
    else Count(ledger[..|ledger| - 1], sel) + if Selects(sel, ledger[|ledger| - 1]) then 1 else 0
  }

  function Sum(ledger: seq<Row>, sel: Selector): int {
    if ledger == [] then 0
    else
      var last := ledger[|ledger| - 1];
      Sum(ledger[..|ledger| - 1], sel) + if Selects(sel, last) then last.points else 0
  }

  lemma Appended(ledger: seq<Row>, row: Row, sel: Selector)
    ensures Count(ledger + [row], sel) == Count(ledger, sel) + if Selects(sel, row) then 1 else 0
    ensures Sum(ledger + [row], sel) == Sum(ledger, sel) + if Selects(sel, row) then row.points else 0
  {
    assert (ledger + [row])[..|ledger|] == ledger;
  }

  lemma {:induction false} CountGrows(ledger: seq<Row>, rows: seq<Row>, sel: Selector)
    ensures Count(ledger, sel) <= Count(ledger + rows, sel)
  {
    if rows == [] {
      assert ledger + rows == ledger;
    } else {
      var init := rows[..|rows| - 1];
      assert ledger + rows == ledger + init + [rows[|rows| - 1]];
      Appended(ledger + init, rows[|rows| - 1], sel);
      CountGrows(ledger, init, sel);
    }
  }
}

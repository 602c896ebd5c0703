/**
 Who is paid when the day's cap does not reach for all: the witnesses that come first in the table.
 */
module AwardOrder {
  import opened Wrappers
  import opened Calendar
  import opened CampaignRules
  import opened PointsLedger
  import opened Campaign
  import opened AwardPlanner
  import opened AwardSchedule
  import opened OverlappingRuns
  import opened CampaignDb

  /** The candidate that a witness of an enrolled wallet is. */
  function CandidateOf(w: Witness, es: seq<Enrollment>): Option<Candidate> {
    var e := FindEnrollment(es, w.wallet);
    if e.None? then None else Some(Candidate(w.txHash, e.value.address, w.kind, w.meetsMinNotional, w.closedAtMs))
  }

  lemma OneMoreJoined(ws: seq<Witness>, es: seq<Enrollment>)
    requires ws != []
    ensures var c := CandidateOf(ws[0], es);
            Joined(ws, es) == (if c.None? then [] else [c.value]) + Joined(ws[1..], es)
  {
    hide FindEnrollment;
  }

  predicate IsPending(c: Candidate, ledger: seq<Row>, key: Selector, world: World) {
    KeyOf(c) == key && Eligible(c, world) && !HasRow(ledger, c)
  }

  lemma OneMorePending(ws: seq<Witness>, es: seq<Enrollment>, ledger: seq<Row>, key: Selector, world: World)
    requires ws != []
    ensures var c, rest := CandidateOf(ws[0], es), PendingOn(Joined(ws[1..], es), ledger, key, world);
            PendingOn(Joined(ws, es), ledger, key, world) ==
            if c.Some? && IsPending(c.value, ledger, key, world) then [c.value] + rest else rest
  {
    hide Joined, KeyOf, Eligible, HasRow;
    OneMoreJoined(ws, es);
    var c, rest := CandidateOf(ws[0], es), Joined(ws[1..], es);
    if c.Some? {
      assert ([c.value] + rest)[1..] == rest;
    } else {
      assert [] + rest == rest;
    }
  }

  /** Of two pending witnesses, whenever the later one is among the first `n`, so is the earlier one. */
  lemma {:induction false} EarlierIsAmongFirst(ws: seq<Witness>, es: seq<Enrollment>, ledger: seq<Row>, key: Selector,
                                               world: World, n: int, a: nat, b: nat)
    requires a < b < |ws| && CandidateOf(ws[a], es).Some? && CandidateOf(ws[b], es).Some?
    requires IsPending(CandidateOf(ws[a], es).value, ledger, key, world)
    requires forall i, j :: 0 <= i < j < |ws| ==> ws[i].txHash != ws[j].txHash
    requires CandidateOf(ws[b], es).value in First(PendingOn(Joined(ws, es), ledger, key, world), n)
    ensures CandidateOf(ws[a], es).value in First(PendingOn(Joined(ws, es), ledger, key, world), n)
  {
    hide First, PendingOn, Joined, IsPending, FindEnrollment;
    var rest := PendingOn(Joined(ws[1..], es), ledger, key, world);
    var head := CandidateOf(ws[0], es);
    OneMorePending(ws, es, ledger, key, world);
    if head.Some? && IsPending(head.value, ledger, key, world) {
      FirstSteps(head.value, rest, n);
      if a > 0 {
        assert CandidateOf(ws[b], es).value != head.value;
        EarlierIsAmongFirst(ws[1..], es, ledger, key, world, n - 1, a - 1, b - 1);
      }
    } else {
      EarlierIsAmongFirst(ws[1..], es, ledger, key, world, n, a - 1, b - 1);
    }
  }

  /**
   The earliest are paid: when a run plans a witness, it plans every pending one of the same wallet, kind
   and day that stands before it in the table.
   */
  lemma EarliestArePaid(ws: seq<Witness>, es: seq<Enrollment>, ledger: seq<Row>, world: World, a: nat, b: nat)
    requires a < b < |ws| && CandidateOf(ws[a], es).Some? && CandidateOf(ws[b], es).Some?
    requires forall i, j :: 0 <= i < j < |ws| ==> ws[i].txHash != ws[j].txHash
    requires var c, d := CandidateOf(ws[a], es).value, CandidateOf(ws[b], es).value;
             KeyOf(c) == KeyOf(d) && Eligible(c, world) && !HasRow(ledger, c)
    ensures var cs := CandidatesOf(Joined(ws, es), ledger, world);
            var taken := Taken(cs, CountsOf(ledger), world);
            && |taken| == |PlanFor(Joined(ws, es), ledger, world)|
            && (CandidateOf(ws[b], es).value in taken ==> CandidateOf(ws[a], es).value in taken)
  {
    hide *;
    var c, d := CandidateOf(ws[a], es).value, CandidateOf(ws[b], es).value;
    var key := KeyOf(c);
    var seen := Joined(ws, es);
    var taken := Taken(CandidatesOf(seen, ledger, world), CountsOf(ledger), world);
    KeyIsActions(c);
    TakenIsPlanned(seen, ledger, world);
    PlanTakesTheCut(seen, ledger, ledger, key, world);
    InOnKey(taken, key, c);
    InOnKey(taken, key, d);
    PendingIs(c, ledger, key, world);
    CutIs(seen, ledger, key, world);
    if d in taken {
      EarlierIsAmongFirst(ws, es, ledger, key, world, Room(RuleOf(key.kind).dailyCap, Count(ledger, key)), a, b);
    }
  }

  lemma KeyIsActions(c: Candidate)
    ensures KeyOf(c).ActionsOn?
  {
  }

  lemma PendingIs(c: Candidate, ledger: seq<Row>, key: Selector, world: World)
    ensures IsPending(c, ledger, key, world) <==> KeyOf(c) == key && Eligible(c, world) && !HasRow(ledger, c)
  {
    hide KeyOf, Eligible, HasRow;
  }

  lemma CutIs(seen: seq<Candidate>, ledger: seq<Row>, key: Selector, world: World)
    requires key.ActionsOn?
    ensures CutOf(seen, ledger, ledger, key, world) ==
            First(PendingOn(seen, ledger, key, world), Room(RuleOf(key.kind).dailyCap, Count(ledger, key)))
  {
    hide First, PendingOn, Count;
  }

  lemma TakenIsPlanned(seen: seq<Candidate>, ledger: seq<Row>, world: World)
    ensures |Taken(CandidatesOf(seen, ledger, world), CountsOf(ledger), world)| == |PlanFor(seen, ledger, world)|
  {
    hide Taken, Awards, CandidatesOf, CountsOf;
    TakenMatch(CandidatesOf(seen, ledger, world), CountsOf(ledger), world);
  }
}

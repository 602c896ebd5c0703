/**
 Overlaps that pass the daily cap, and by how much: a witness that only the second run sees, and
 counts that are older than the candidates they are used with.
 */
module CapBreaks {
  import opened Wrappers
  import opened Calendar
  import opened CampaignRules
  import opened PointsLedger
  import opened AwardPlanner
  import opened AwardSchedule
  import opened OverlappingRuns
  import opened TwoOverlappingRuns

  lemma {:induction false} CountAll(ledger: seq<Row>, rows: seq<Row>, key: Selector)
    requires forall r :: r in rows ==> Selects(key, r)
    ensures Count(ledger + rows, key) == Count(ledger, key) + |rows|
  {
    hide Selects, Count;
    if rows == [] {
      assert ledger + rows == ledger;
    } else {
      var n := |rows| - 1;
      CountAll(ledger, rows[..n], key);
      Appended(ledger + rows[..n], rows[n], key);
      assert ledger + rows == ledger + rows[..n] + [rows[n]];
    }
  }

  lemma {:induction false} AllOnKey(cs: seq<Candidate>, key: Selector)
    requires forall c :: c in cs ==> KeyOf(c) == key
    ensures OnKey(cs, key) == cs
  {
    hide KeyOf;
    if cs != [] { AllOnKey(cs[1..], key); }
  }

  /** A run whose witnesses are all pending on one key: every insert takes one place of it. */
  lemma OneKeyPlan(ledger: seq<Row>, a: seq<Candidate>, world: World, key: Selector, n: nat)
    requires DistinctTx(a) && PendingOn(a, ledger, key, world) == a
    requires key.ActionsOn? && IsCivil(key.on) && Count(ledger, key) <= RuleOf(key.kind).dailyCap
    ensures |PlanFor(a, ledger, world)| == Min(RuleOf(key.kind).dailyCap - Count(ledger, key), |a|)
    ensures n <= |PlanFor(a, ledger, world)| ==>
              && Count(AfterInserts(ledger, a, world, n), key) == Count(ledger, key) + n
              && |PendingOn(a, AfterInserts(ledger, a, world, n), key, world)| == |a| - n
  {
    hide *;
    var plan := PlanFor(a, ledger, world);
    PlanFromOne(a, ledger, world);
    OneKeyPlanLength(ledger, a, world, key);
    if n <= |plan| {
      OneKeyRows(ledger, a, world, key, n);
      AfterInsertsKeepsCap(ledger, a, world, n, key);
      PendingPlaces(a, ledger, key, world);
      PendingPlaces(a, AfterInserts(ledger, a, world, n), key, world);
    }
  }

  lemma PendingPlaces(a: seq<Candidate>, ledger: seq<Row>, key: Selector, world: World)
    requires DistinctTx(a)
    ensures |PendingOn(a, ledger, key, world)| == |Pending(SetOf(a), ledger, key, world)|
  {
    hide *;
    PendingInOrder(a, ledger, key, world);
    AsManyAsPlaces(PendingOn(a, ledger, key, world));
  }

  lemma OnlyThisKey(a: seq<Candidate>, ledger: seq<Row>, key: Selector, world: World)
    requires PendingOn(a, ledger, key, world) == a
    ensures forall c :: c in a ==> KeyOf(c) == key
  {
    hide KeyOf, PendingOn, Eligible, HasRow;
    forall c | c in a ensures KeyOf(c) == key {
      InPendingOn(a, ledger, key, world, c);
    }
  }

  lemma OneKeyPlanLength(ledger: seq<Row>, a: seq<Candidate>, world: World, key: Selector)
    requires PendingOn(a, ledger, key, world) == a && key.ActionsOn?
    requires Count(ledger, key) <= RuleOf(key.kind).dailyCap
    ensures |PlanFor(a, ledger, world)| == Min(RuleOf(key.kind).dailyCap - Count(ledger, key), |a|)
  {
    hide Taken, CandidatesOf, CountsOf, KeyOf, OnKey, First, PendingOn, Count, RuleOf, TxOn, TxOf, RowsFor, Awards;
    var taken := Taken(CandidatesOf(a, ledger, world), CountsOf(ledger), world);
    OnlyThisKey(a, ledger, key, world);
    PlannedRows(a, ledger, ledger, world, 0, key);
    forall c | c in taken ensures KeyOf(c) == key {
      assert c in SetOf(taken);
    }
    AllOnKey(taken, key);
    PlanTakesTheCut(a, ledger, ledger, key, world);
    FirstIsPrefix(a, RuleOf(key.kind).dailyCap - Count(ledger, key));
  }

  lemma OneKeyRows(ledger: seq<Row>, a: seq<Candidate>, world: World, key: Selector, n: nat)
    requires PendingOn(a, ledger, key, world) == a && key.ActionsOn? && n <= |PlanFor(a, ledger, world)|
    ensures Count(AfterInserts(ledger, a, world, n), key) == Count(ledger, key) + n
  {
    hide KeyOf, Awards, PendingOn, Count, Selects, IsRowOf, HasRow, TxOn, TxOf, Taken, OnKey, RowOfAward;
    var rows := RowsOf(PlanFor(a, ledger, world))[..n];
    OnlyThisKey(a, ledger, key, world);
    PlannedRows(a, ledger, ledger, world, n, key);
    forall r | r in rows ensures Selects(key, r) {
      var c :| c in SetOf(a) && IsRowOf(r, c) && !HasRow(ledger, c);
      RowAndWitness(r, c, key);
    }
    CountAll(ledger, rows, key);
    assert RowsOf(PlanFor(a, ledger, world)[..n]) == rows;
  }

  /**
   Two runs with the same witnesses, all of one key: every insert between B's count query and its
   candidates query lets one more award past the cap, as far as there are witnesses.
   */
  lemma EachInsertBetweenTheReadsIsOneOver(ledger: seq<Row>, a: seq<Candidate>, inA: World, i: nat, j: nat,
                                           inB: World, turns: seq<bool>, key: Selector)
    requires DistinctTx(a) && inA.window == inB.window && PendingOn(a, ledger, key, inA) == a
    requires key.ActionsOn? && IsCivil(key.on) && Count(ledger, key) <= RuleOf(key.kind).dailyCap
    requires i <= |PlanFor(a, ledger, inA)| && j <= |PlanFor(a, ledger, inA)|
    ensures Count(AfterOverlap(ledger, a, inA, i, j, a, inB, turns), key) ==
            Min(RuleOf(key.kind).dailyCap + if j < i then i - j else 0, Count(ledger, key) + |a|)
  {
    hide *;
    SameWitnessesKeepTheCapExactly(ledger, a, inA, i, j, inB, turns, key);
    OneKeyPlan(ledger, a, inA, key, i);
    OneKeyPlan(ledger, a, inA, key, j);
    FewEnough(RuleOf(key.kind).dailyCap - Count(ledger, key), |a|);
    PlacesLeft(RuleOf(key.kind).dailyCap, Count(ledger, key), |a|, i, j);
  }

  lemma FewEnough(room: int, n: int)
    ensures Min(room, n) <= room && Min(room, n) <= n
  {
  }

  lemma PlacesLeft(cap: nat, used: nat, n: nat, i: nat, j: nat)
    requires i <= n && j <= n && used + i <= cap && used + j <= cap
    ensures used + i + Min(n - i, cap - Min(used + i, used + j)) == Min(cap + if j < i then i - j else 0, used + n)
  {
  }

  /**
   A witness that only B sees, and sees first: if what A still has pending fills the day, the overlap
   breaks the cap, wherever B's reads fall.
   */
  lemma LateWitnessBreaksTheCap(late: Candidate, seen: seq<Candidate>, ledger: seq<Row>, inA: World, i: nat, j: nat,
                                inB: World, turns: seq<bool>)
    requires DistinctTx([late] + seen) && Eligible(late, inB)
    requires Count(ledger, KeyOf(late)) <= RuleOf(late.kind).dailyCap
    requires i <= |PlanFor(seen, ledger, inA)| && j <= |PlanFor(seen, ledger, inA)|
    requires var saw, counted := AfterInserts(ledger, seen, inA, i), AfterInserts(ledger, seen, inA, j);
             var cap := RuleOf(late.kind).dailyCap;
             && !HasRow(saw, late) && Count(counted, KeyOf(late)) < cap
             && |PendingOn(seen, saw, KeyOf(late), inA)| >= cap - Count(saw, KeyOf(late))
    ensures Count(AfterOverlap(ledger, seen, inA, i, j, [late] + seen, inB, turns), KeyOf(late)) >
            RuleOf(late.kind).dailyCap
  {
    hide *;
    var key, all := KeyOf(late), SetOf([late] + seen);
    var saw, counted := AfterInserts(ledger, seen, inA, i), AfterInserts(ledger, seen, inA, j);
    LateIsNew(late, seen);
    KeyIsOn(late);
    SetOfIsUnique([late] + seen);
    OverlapKeepsTheCapExactly(all, ledger, seen, inA, i, j, [late] + seen, inB, turns, key);
    AfterInsertsKeepsCap(ledger, seen, inA, i, key);
    LateIsFirst(late, seen, saw, inB, RuleOf(late.kind).dailyCap - Count(counted, key));
    var pending := PendingOn(seen, saw, key, inA);
    var room := RuleOf(late.kind).dailyCap - Count(saw, key);
    var y := First(PendingOn([late] + seen, saw, key, inB), RuleOf(late.kind).dailyCap - Count(counted, key));
    LateIsNotPending(late, seen, saw, key, inA, room);
    PendingInOrder(seen, saw, key, inA);
    AsManyAsPlaces(pending);
    Larger(SetOf(pending) + {late}, SetOf(pending) + SetOf(y));
  }

  lemma KeyIsOn(c: Candidate)
    ensures KeyOf(c).ActionsOn? && IsCivil(KeyOf(c).on) && KeyOf(c).kind == c.kind
  {
  }

  lemma LateIsNew(late: Candidate, seen: seq<Candidate>)
    requires DistinctTx([late] + seen)
    ensures late !in seen && SeesOnce(seen, SetOf([late] + seen)) && SeesOnce([late] + seen, SetOf([late] + seen))
    ensures DistinctTx(seen)
  {
    var all := [late] + seen;
    assert all[0] == late && forall i :: 0 <= i < |seen| ==> all[i + 1] == seen[i];
  }

  lemma LateIsFirst(late: Candidate, seen: seq<Candidate>, saw: seq<Row>, world: World, n: int)
    requires Eligible(late, world) && !HasRow(saw, late) && n > 0
    ensures late in SetOf(First(PendingOn([late] + seen, saw, KeyOf(late), world), n))
  {
    hide KeyOf, Eligible, HasRow;
    assert ([late] + seen)[1..] == seen;
    FirstSteps(late, PendingOn(seen, saw, KeyOf(late), world), n);
  }

  lemma LateIsNotPending(late: Candidate, seen: seq<Candidate>, saw: seq<Row>, key: Selector, world: World, n: int)
    requires late !in seen
    ensures late !in SetOf(PendingOn(seen, saw, key, world))
    ensures late !in SetOf(First(PendingOn(seen, saw, key, world), n))
  {
    hide PendingOn, First;
    InPendingOn(seen, saw, key, world, late);
    FirstIsPrefix(PendingOn(seen, saw, key, world), n);
  }

  /** A world without check-ins, open from `startMs` on. */
  function OpenWorld(startMs: int): World {
    World(map[], Window(Some(startMs), None))
  }

  /** A deposit of one wallet, `n` milliseconds into a day. */
  function Deposit(address: string, txHash: string, n: nat): Candidate {
    Candidate(txHash, address, BlendDeposit, true, n)
  }

  function ThreeDeposits(address: string): seq<Candidate> {
    [Deposit(address, "x", 1), Deposit(address, "y", 2), Deposit(address, "z", 3)]
  }

  function FourDeposits(address: string): seq<Candidate> {
    [Deposit(address, "w", 0)] + ThreeDeposits(address)
  }

  function DepositKey(address: string): Selector {
    KeyOf(Deposit(address, "w", 0))
  }

  /**
   Both runs read the same four deposits of one day, of which three can be paid. If A inserts anything
   after B's count query and before its candidates query, all four are paid, in every interleaving; and
   in no other case.
   */
  lemma FourthDepositIsPaid(address: string, i: nat, j: nat, turns: seq<bool>)
    requires i <= 3 && j <= 3
    ensures var a, world := FourDeposits(address), OpenWorld(0);
            && RuleOf(BlendDeposit).dailyCap == 3 && |PlanFor(a, [], world)| == 3
            && Count(AfterOverlap([], a, world, i, j, a, world, turns), DepositKey(address)) == if j < i then 4 else 3
  {
    hide *;
    var a, key, world := FourDeposits(address), DepositKey(address), OpenWorld(0);
    FourArePending(address);
    OneKeyPlan([], a, world, key, 0);
    LeastOf();
    EachInsertBetweenTheReadsIsOneOver([], a, world, i, j, world, turns, key);
    FourOrThree(i, j);
  }

  lemma LeastOf()
    ensures Min(3 - 0, 4) == 3
  {
  }

  lemma FourOrThree(i: nat, j: nat)
    ensures Min(3 + if j < i then i - j else 0, 0 + 4) == if j < i then 4 else 3
  {
  }

  /**
   The first run reads three deposits and fills the day. The second also reads an older one that was
   verified in between, and plans it first. In every interleaving four are paid under a cap of three.
   */
  lemma FourUnderACapOfThree(address: string, turns: seq<bool>)
    ensures var a, b, world := ThreeDeposits(address), FourDeposits(address), OpenWorld(0);
            && RuleOf(BlendDeposit).dailyCap == 3
            && Count(AfterOverlap([], a, world, 0, 0, b, world, turns), DepositKey(address)) == 4
  {
    hide *;
    var a, b, world := ThreeDeposits(address), FourDeposits(address), OpenWorld(0);
    var late, key := Deposit(address, "w", 0), DepositKey(address);
    FourArePending(address);
    ThreeArePending(address);
    LateIsNew(late, a);
    SetOfIsUnique(b);
    SeenOnce(a, SetOf(b));
    NoInsertsYet([], a, world);
    LateWitnessBreaksTheCap(late, a, [], world, 0, 0, world, turns);
    OverlapKeepsTheCapExactly(SetOf(b), [], a, world, 0, 0, b, world, turns, key);
    AtMostAll(a, b, [], key, 3, world);
  }

  lemma NoInsertsYet(ledger: seq<Row>, a: seq<Candidate>, world: World)
    ensures AfterInserts(ledger, a, world, 0) == ledger
  {
  }

  lemma AtMostAll(a: seq<Candidate>, b: seq<Candidate>, ledger: seq<Row>, key: Selector, n: int, world: World)
    requires DistinctTx(b) && SetOf(a) <= SetOf(b)
    ensures var x, y := First(PendingOn(a, ledger, key, world), n), First(PendingOn(b, ledger, key, world), n);
            |SetOf(x) + SetOf(y)| <= |b|
  {
    hide First, PendingOn, KeyOf, Eligible, HasRow;
    var x, y := First(PendingOn(a, ledger, key, world), n), First(PendingOn(b, ledger, key, world), n);
    FirstIsPrefix(PendingOn(a, ledger, key, world), n);
    FirstIsPrefix(PendingOn(b, ledger, key, world), n);
    PendingInOrder(a, ledger, key, world);
    PendingInOrder(b, ledger, key, world);
    AsManyAsPlaces(b);
    Larger(SetOf(x) + SetOf(y), SetOf(b));
  }

  lemma FourArePending(address: string)
    ensures var a, key, world := FourDeposits(address), DepositKey(address), OpenWorld(0);
            && DistinctTx(a) && |a| == 4 && PendingOn(a, [], key, world) == a
            && key.ActionsOn? && IsCivil(key.on) && key.kind == BlendDeposit
            && RuleOf(BlendDeposit).dailyCap == 3 && Count([], key) == 0
  {
    hide KeyOf, Eligible, HasRow, IsCivil, PendingOn, OpenWorld;
    KeyIsOn(Deposit(address, "w", 0));
    DepositIsPending(address, "w", 0);
    DepositIsPending(address, "x", 1);
    DepositIsPending(address, "y", 2);
    DepositIsPending(address, "z", 3);
    AllArePending(FourDeposits(address), DepositKey(address), OpenWorld(0));
    FourNames();
  }

  lemma FourNames()
    ensures "w" != "x" && "w" != "y" && "w" != "z" && "x" != "y" && "x" != "z" && "y" != "z"
  {
    assert "w"[0] != "x"[0] && "w"[0] != "y"[0] && "w"[0] != "z"[0];
    assert "x"[0] != "y"[0] && "x"[0] != "z"[0] && "y"[0] != "z"[0];
  }

  lemma ThreeArePending(address: string)
    ensures var a, late, key, world := ThreeDeposits(address), Deposit(address, "w", 0), DepositKey(address),
                                       OpenWorld(0);
            && PendingOn(a, [], key, world) == a && |a| == 3 && FourDeposits(address) == [late] + a
            && KeyOf(late) == key && late.kind == BlendDeposit && Eligible(late, world) && !HasRow([], late)
  {
    hide KeyOf, Eligible, HasRow, PendingOn, OpenWorld;
    DepositIsPending(address, "w", 0);
    DepositIsPending(address, "x", 1);
    DepositIsPending(address, "y", 2);
    DepositIsPending(address, "z", 3);
    AllArePending(ThreeDeposits(address), DepositKey(address), OpenWorld(0));
  }

  lemma {:induction false} AllArePending(cs: seq<Candidate>, key: Selector, world: World)
    requires forall c :: c in cs ==> KeyOf(c) == key && Eligible(c, world) && !HasRow([], c)
    ensures PendingOn(cs, [], key, world) == cs
  {
    hide KeyOf, Eligible, HasRow;
    if cs != [] { AllArePending(cs[1..], key, world); }
  }

  lemma DepositIsPending(address: string, txHash: string, n: nat)
    requires n < 4
    ensures var c := Deposit(address, txHash, n);
            KeyOf(c) == DepositKey(address) && Eligible(c, OpenWorld(0)) && !HasRow([], c)
  {
    hide Lower, CivilOf;
    assert n / MS_PER_DAY == 0;
  }
}

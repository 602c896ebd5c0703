/**
 Two overlapping runs of the award job, exactly: when the daily cap holds at the end, whatever the
 second one's queries see of the first one's inserts.
 */
module TwoOverlappingRuns {
  import opened Wrappers
  import opened Calendar
  import opened CampaignRules
  import opened PointsLedger
  import opened AwardPlanner
  import opened AwardSchedule
  import opened OverlappingRuns

  // ---- Two runs ----

  /** The inserts of two runs in one of their interleavings; `turns` says whose is next. */
  function Interleaved(a: seq<Row>, b: seq<Row>, turns: seq<bool>): seq<Row> {
    if a == [] then b
    else if b == [] then a
    else if turns != [] && turns[0] then [a[0]] + Interleaved(a[1..], b, turns[1..])
    else [b[0]] + Interleaved(a, b[1..], if turns == [] then [] else turns[1..])
  }

  lemma {:induction false} InterleavedHolds(a: seq<Row>, b: seq<Row>, turns: seq<bool>, r: Row)
    ensures r in Interleaved(a, b, turns) <==> r in a || r in b
    decreases |a| + |b|
  {
    if a != [] && b != [] {
      if turns != [] && turns[0] {
        InterleavedHolds(a[1..], b, turns[1..], r);
        assert a == [a[0]] + a[1..];
      } else {
        InterleavedHolds(a, b[1..], if turns == [] then [] else turns[1..], r);
        assert b == [b[0]] + b[1..];
      }
    }
  }

  /** The ledger once run A, which planned from `ledger`, has made its first `n` inserts. */
  function AfterInserts(ledger: seq<Row>, a: seq<Candidate>, inA: World, n: nat): seq<Row>
    requires n <= |PlanFor(a, ledger, inA)|
  {
    ledger + RowsOf(PlanFor(a, ledger, inA)[..n])
  }

  /**
   The ledger at the end. Run A makes the first insert, so it read everything before. Run B reads its
   candidates after `i` inserts of A and its counts after `j`; from then on the inserts interleave.
   */
  function AfterOverlap(ledger: seq<Row>, a: seq<Candidate>, inA: World, i: nat, j: nat, b: seq<Candidate>,
                        inB: World, turns: seq<bool>): seq<Row>
    requires i <= |PlanFor(a, ledger, inA)| && j <= |PlanFor(a, ledger, inA)|
  {
    var m := if i < j then j else i;
    var planB := Plan(b, AfterInserts(ledger, a, inA, i), AfterInserts(ledger, a, inA, j), inB);
    InsertAll(AfterInserts(ledger, a, inA, m),
              Interleaved(RowsOf(PlanFor(a, ledger, inA)[m..]), RowsOf(planB), turns))
  }

  ghost predicate SeesOnce(witnesses: seq<Candidate>, all: set<Candidate>) {
    DistinctTx(witnesses) && forall c :: c in witnesses ==> c in all
  }

  lemma PlanIsAppended(witnesses: seq<Candidate>, ledger: seq<Row>, world: World)
    requires DistinctTx(witnesses)
    ensures AppendsAwards(SetOf(witnesses), ledger, RowsOf(PlanFor(witnesses, ledger, world)), world)
  {
    hide AppendsAwards, PlanFor, RowsOf;
    var plan := PlanFor(witnesses, ledger, world);
    PlanIsShort(witnesses, ledger, world);
    assert plan[..|plan|] == plan;
    RunAppends(SetOf(witnesses), ledger, Run(witnesses, |witnesses|), world);
    assert (ledger + RowsOf(plan))[|ledger|..] == RowsOf(plan);
  }

  lemma {:induction false} NewRowsAllGoIn(all: set<Candidate>, ledger: seq<Row>, rows: seq<Row>, k: nat, world: World)
    requires AppendsAwards(all, ledger, rows, world) && k <= |rows|
    ensures InsertAll(ledger, rows[..k]) == ledger + rows[..k]
  {
    hide Conflicts, AppendsAwards;
    if k > 0 {
      NewRowsAllGoIn(all, ledger, rows, k - 1, world);
      PlannedRowsAreNew(all, ledger, rows, k - 1, world);
      InsertedNewRow(ledger, rows, k - 1);
      assert rows[..k][..k - 1] == rows[..k - 1];
    }
  }

  /** After `i` inserts, what is left of A's plan is what A would plan now; the inserts to `m` all go in. */
  lemma RestOfPlan(ledger: seq<Row>, a: seq<Candidate>, inA: World, i: nat, m: nat)
    requires DistinctTx(a) && i <= m <= |PlanFor(a, ledger, inA)|
    ensures var plan, saw := PlanFor(a, ledger, inA), AfterInserts(ledger, a, inA, i);
            && PlanFor(a, saw, inA) == plan[i..]
            && AfterInserts(ledger, a, inA, m) == InsertAll(saw, RowsOf(plan[i..])[..m - i])
            && RowsOf(plan[i..])[m - i..] == RowsOf(plan[m..])
  {
    hide PlanFor, AppendsAwards, InsertAll, RowOfAward;
    var plan, saw := PlanFor(a, ledger, inA), AfterInserts(ledger, a, inA, i);
    CrashAndResume(a, ledger, i, inA);
    PlanIsAppended(a, saw, inA);
    NewRowsAllGoIn(SetOf(a), saw, RowsOf(plan[i..]), m - i, inA);
    assert RowsOf(plan[..m]) == RowsOf(plan[..i]) + RowsOf(plan[i..])[..m - i];
  }

  /** All that is inserted from the candidates read on: the rest of A's plan and the whole of B's. */
  lemma OverlapFromRead(ledger: seq<Row>, a: seq<Candidate>, inA: World, i: nat, j: nat, b: seq<Candidate>,
                        inB: World, turns: seq<bool>) returns (rows: seq<Row>)
    requires DistinctTx(a) && i <= |PlanFor(a, ledger, inA)| && j <= |PlanFor(a, ledger, inA)|
    ensures var saw := AfterInserts(ledger, a, inA, i);
            var planB := Plan(b, saw, AfterInserts(ledger, a, inA, j), inB);
            && AfterOverlap(ledger, a, inA, i, j, b, inB, turns) == InsertAll(saw, rows)
            && forall r :: r in rows <==> r in RowsOf(PlanFor(a, saw, inA)) || r in RowsOf(planB)
  {
    hide PlanFor, InsertAll, RowsOf, Interleaved, Plan, AfterInserts;
    var m := if i < j then j else i;
    var saw := AfterInserts(ledger, a, inA, i);
    var rowsA := RowsOf(PlanFor(a, saw, inA));
    var rowsB := RowsOf(Plan(b, saw, AfterInserts(ledger, a, inA, j), inB));
    RestOfPlan(ledger, a, inA, i, m);
    RowsOfLength(PlanFor(a, saw, inA));
    var early, late := rowsA[..m - i], rowsA[m - i..];
    rows := early + Interleaved(late, rowsB, turns);
    InsertAllInTwoParts(saw, early, Interleaved(late, rowsB, turns));
    assert rowsA == early + late;
    forall r ensures r in rows <==> r in rowsA || r in rowsB {
      InterleavedHolds(late, rowsB, turns, r);
    }
  }

  lemma {:induction false} InPendingOn(witnesses: seq<Candidate>, ledger: seq<Row>, key: Selector, world: World,
                                       c: Candidate)
    ensures c in PendingOn(witnesses, ledger, key, world) <==>
            c in witnesses && KeyOf(c) == key && Eligible(c, world) && !HasRow(ledger, c)
  {
    hide KeyOf, Eligible, HasRow;
    if witnesses != [] { InPendingOn(witnesses[1..], ledger, key, world, c); }
  }

  /** The pending witnesses, in the order of the list. */
  lemma PendingInOrder(witnesses: seq<Candidate>, ledger: seq<Row>, key: Selector, world: World)
    ensures SetOf(PendingOn(witnesses, ledger, key, world)) == Pending(SetOf(witnesses), ledger, key, world)
    ensures DistinctTx(witnesses) ==> DistinctTx(PendingOn(witnesses, ledger, key, world))
  {
    hide KeyOf, Eligible, HasRow, PendingOn, DistinctTx;
    forall c ensures c in PendingOn(witnesses, ledger, key, world) <==>
                     c in witnesses && KeyOf(c) == key && Eligible(c, world) && !HasRow(ledger, c)
    {
      InPendingOn(witnesses, ledger, key, world, c);
    }
    if DistinctTx(witnesses) { PendingStaysDistinct(witnesses, ledger, key, world); }
  }

  lemma {:induction false} PendingStaysDistinct(witnesses: seq<Candidate>, ledger: seq<Row>, key: Selector,
                                                world: World)
    requires DistinctTx(witnesses)
    ensures DistinctTx(PendingOn(witnesses, ledger, key, world))
  {
    hide KeyOf, Eligible, HasRow;
    if witnesses != [] {
      var c, rest := witnesses[0], PendingOn(witnesses[1..], ledger, key, world);
      PendingStaysDistinct(witnesses[1..], ledger, key, world);
      forall n | 0 <= n < |rest| ensures rest[n].txHash != c.txHash {
        InPendingOn(witnesses[1..], ledger, key, world, rest[n]);
      }
    }
  }

  /** As many different witnesses as places in the list. */
  lemma {:induction false} AsManyAsPlaces(cs: seq<Candidate>)
    requires DistinctTx(cs)
    ensures |SetOf(cs)| == |cs|
  {
    if cs != [] {
      var rest := cs[1..];
      AsManyAsPlaces(rest);
      assert cs == [cs[0]] + rest;
      assert SetOf(cs) == {cs[0]} + SetOf(rest);
    }
  }

  lemma FirstIsPrefix(cs: seq<Candidate>, n: int)
    ensures First(cs, n) <= cs && |First(cs, n)| == if n <= 0 then 0 else Min(n, |cs|)
    ensures DistinctTx(cs) ==> DistinctTx(First(cs, n))
    ensures SetOf(First(cs, n)) <= SetOf(cs)
  {
  }

  /**
   `x` holds the first `room` of the pending ones. Together with `y` it fits the room if and only if `y`
   brings nothing new, or all that is pending fits together with `y`.
   */
  lemma CutAndMoreFit(pending: set<Candidate>, x: set<Candidate>, y: set<Candidate>, room: nat)
    requires x <= pending && |x| == Min(room, |pending|)
    ensures |x + y| <= room <==> y <= x || |pending + y| <= room
  {
    Larger(x, pending);
    Larger(x, x + y);
    Larger(x + y, pending + y);
    Larger(pending, pending + y);
    if y <= x { assert x + y == x; }
  }

  /** A larger set holds a smaller one, and equals it when it has no more elements. */
  lemma Larger(a: set<Candidate>, b: set<Candidate>)
    requires a <= b
    ensures |a| <= |b| && (|a| == |b| ==> a == b)
  {
    assert b == a + (b - a);
  }

  lemma AfterInsertsKeepsCap(ledger: seq<Row>, a: seq<Candidate>, inA: World, n: nat, key: Selector)
    requires DistinctTx(a) && key.ActionsOn? && IsCivil(key.on) && n <= |PlanFor(a, ledger, inA)|
    requires Count(ledger, key) <= RuleOf(key.kind).dailyCap
    ensures var gained := Count(AfterInserts(ledger, a, inA, n), key) - Count(ledger, key);
            && gained >= 0 && Count(AfterInserts(ledger, a, inA, n), key) <= RuleOf(key.kind).dailyCap
            && |Pending(SetOf(a), ledger, key, inA)| - |Pending(SetOf(a), AfterInserts(ledger, a, inA, n), key, inA)|
               == gained
  {
    hide AppendsAwards, PlanFor, RowsOf, Count, UniqueTx, IsCivil, PointsPerAward, Pending, RuleOf;
    SetOfIsUnique(a);
    RunAppends(SetOf(a), ledger, Run(a, n), inA);
    var rows := RowsOf(PlanFor(a, ledger, inA)[..n]);
    assert (ledger + rows)[|ledger|..] == rows;
    AwardsConserve(SetOf(a), ledger, rows, key, inA);
  }

  lemma SetOfIsUnique(witnesses: seq<Candidate>)
    requires DistinctTx(witnesses)
    ensures UniqueTx(SetOf(witnesses))
  {
  }

  /** What either run takes of a key from the candidates read on. */
  lemma OverlapCounts(all: set<Candidate>, ledger: seq<Row>, a: seq<Candidate>, inA: World, i: nat, j: nat,
                      b: seq<Candidate>, inB: World, turns: seq<bool>, key: Selector)
    requires UniqueTx(all) && SeesOnce(a, all) && SeesOnce(b, all) && key.ActionsOn?
    requires i <= |PlanFor(a, ledger, inA)| && j <= |PlanFor(a, ledger, inA)|
    ensures var saw, counted := AfterInserts(ledger, a, inA, i), AfterInserts(ledger, a, inA, j);
            Count(AfterOverlap(ledger, a, inA, i, j, b, inB, turns), key) ==
            Count(saw, key) + |SetOf(CutOf(a, saw, saw, key, inA)) + SetOf(CutOf(b, saw, counted, key, inB))|
  {
    hide *;
    var saw, counted := AfterInserts(ledger, a, inA, i), AfterInserts(ledger, a, inA, j);
    SeenOnce(a, all);
    SeenOnce(b, all);
    var rows := OverlapFromRead(ledger, a, inA, i, j, b, inB, turns);
    PlanFromOne(a, saw, inA);
    WholePlan(all, a, saw, saw, inA, key);
    WholePlan(all, b, saw, counted, inB, key);
    var x, y := SetOf(CutOf(a, saw, saw, key, inA)), SetOf(CutOf(b, saw, counted, key, inB));
    RowsTogether(RowsOf(PlanFor(a, saw, inA)), RowsOf(Plan(b, saw, counted, inB)), rows, all, saw, key);
    assert TxOf(x + y) == TxOf(x) + TxOf(y) by { TxOfUnion(x, y); }
    RowsAddTheirWitnesses(all, saw, rows, key, x + y);
  }

  lemma TxOfUnion(x: set<Candidate>, y: set<Candidate>)
    ensures TxOf(x + y) == TxOf(x) + TxOf(y)
  {
  }

  lemma SeenOnce(witnesses: seq<Candidate>, all: set<Candidate>)
    requires SeesOnce(witnesses, all)
    ensures DistinctTx(witnesses) && SetOf(witnesses) <= all
  {
  }

  lemma PlanFromOne(a: seq<Candidate>, saw: seq<Row>, world: World)
    ensures PlanFor(a, saw, world) == Plan(a, saw, saw, world)
  {
  }

  lemma WholePlan(all: set<Candidate>, witnesses: seq<Candidate>, saw: seq<Row>, counted: seq<Row>, world: World,
                  key: Selector)
    requires SetOf(witnesses) <= all && key.ActionsOn?
    ensures var rows := RowsOf(Plan(witnesses, saw, counted, world));
            && TxOn(rows, key) == TxOf(SetOf(CutOf(witnesses, saw, counted, key, world)))
            && RowsFor(rows, all, saw) && SetOf(CutOf(witnesses, saw, counted, key, world)) <= all
  {
    hide *;
    var plan := Plan(witnesses, saw, counted, world);
    var taken := Taken(CandidatesOf(witnesses, saw, world), CountsOf(counted), world);
    RowsOfLength(plan);
    PlannedRows(witnesses, saw, counted, world, |plan|, key);
    assert RowsOf(plan)[..|plan|] == RowsOf(plan);
    OnKeyOfPrefix(taken, |taken|, key);
    PlanTakesTheCut(witnesses, saw, counted, key, world);
    EarlierRowsFor(RowsOf(plan), SetOf(witnesses), all, saw, saw);
  }

  lemma RowsTogether(x: seq<Row>, y: seq<Row>, rows: seq<Row>, from: set<Candidate>, ledger: seq<Row>, key: Selector)
    requires RowsFor(x, from, ledger) && RowsFor(y, from, ledger)
    requires forall r :: r in rows <==> r in x || r in y
    ensures RowsFor(rows, from, ledger) && TxOn(rows, key) == TxOn(x, key) + TxOn(y, key)
  {
    hide Selects, IsRowOf, HasRow;
  }

  /**
   Two overlapping runs, exactly, whenever B reads what. With `saw` and `counted` the ledgers of B's two
   reads: A still takes the first of its pending ones up to the room at `saw`, B the first of its own up
   to the room at `counted`, and what is added is their union. The cap holds at the end if and only if
   B takes nothing that A does not, or all that A has pending fits together with what B takes.
   */
  lemma OverlapKeepsTheCapExactly(all: set<Candidate>, ledger: seq<Row>, a: seq<Candidate>, inA: World, i: nat,
                                  j: nat, b: seq<Candidate>, inB: World, turns: seq<bool>, key: Selector)
    requires UniqueTx(all) && SeesOnce(a, all) && SeesOnce(b, all)
    requires key.ActionsOn? && IsCivil(key.on) && Count(ledger, key) <= RuleOf(key.kind).dailyCap
    requires i <= |PlanFor(a, ledger, inA)| && j <= |PlanFor(a, ledger, inA)|
    ensures var saw, counted := AfterInserts(ledger, a, inA, i), AfterInserts(ledger, a, inA, j);
            var cap, final := RuleOf(key.kind).dailyCap, AfterOverlap(ledger, a, inA, i, j, b, inB, turns);
            var pending := PendingOn(a, saw, key, inA);
            var x := First(pending, cap - Count(saw, key));
            var y := First(PendingOn(b, saw, key, inB), cap - Count(counted, key));
            && Count(final, key) == Count(saw, key) + |SetOf(x) + SetOf(y)|
            && (Count(final, key) <= cap <==>
                  SetOf(y) <= SetOf(x) || |SetOf(pending) + SetOf(y)| <= cap - Count(saw, key))
  {
    hide *;
    var saw, counted := AfterInserts(ledger, a, inA, i), AfterInserts(ledger, a, inA, j);
    var cap := RuleOf(key.kind).dailyCap;
    SeenOnce(a, all);
    OverlapCounts(all, ledger, a, inA, i, j, b, inB, turns, key);
    AfterInsertsKeepsCap(ledger, a, inA, i, key);
    AfterInsertsKeepsCap(ledger, a, inA, j, key);
    CutWithRoom(a, saw, saw, key, inA);
    CutWithRoom(b, saw, counted, key, inB);
    var pending := PendingOn(a, saw, key, inA);
    var x, y := First(pending, cap - Count(saw, key)), First(PendingOn(b, saw, key, inB), cap - Count(counted, key));
    PendingInOrder(a, saw, key, inA);
    FirstIsPrefix(pending, cap - Count(saw, key));
    AsManyAsPlaces(pending);
    AsManyAsPlaces(x);
    Smaller(cap - Count(saw, key), |pending|);
    CutAndMoreFit(SetOf(pending), SetOf(x), SetOf(y), cap - Count(saw, key));
  }

  lemma Smaller(n: nat, m: nat)
    ensures (if n <= 0 then 0 else Min(n, m)) == Min(n, m)
  {
  }

  lemma CutWithRoom(witnesses: seq<Candidate>, saw: seq<Row>, counted: seq<Row>, key: Selector, world: World)
    requires key.ActionsOn? && Count(counted, key) <= RuleOf(key.kind).dailyCap
    ensures CutOf(witnesses, saw, counted, key, world) ==
            First(PendingOn(witnesses, saw, key, world), RuleOf(key.kind).dailyCap - Count(counted, key))
  {
    hide First, PendingOn, Count, RuleOf;
  }

  // ---- Two runs that see the same witnesses ----

  lemma FirstOfBoth(cs: seq<Candidate>, n: nat, m: nat)
    requires DistinctTx(cs)
    ensures SetOf(First(cs, m)) <= SetOf(First(cs, n)) <==> m <= n || |cs| <= n
    ensures |SetOf(First(cs, n)) + SetOf(First(cs, m))| == Min(|cs|, if n < m then m else n)
    ensures SetOf(cs) + SetOf(First(cs, m)) == SetOf(cs) && |SetOf(cs)| == |cs|
  {
    hide First, SetOf, DistinctTx;
    var x, y := First(cs, n), First(cs, m);
    FirstIsPrefix(cs, n);
    FirstIsPrefix(cs, m);
    AsManyAsPlaces(cs);
    AsManyAsPlaces(x);
    AsManyAsPlaces(y);
    PrefixesNest(x, y, cs);
    Nested(x, y);
    if SetOf(y) <= SetOf(x) { Larger(SetOf(y), SetOf(x)); }
    assert SetOf(cs) + SetOf(y) == SetOf(cs);
  }

  lemma PrefixesNest(x: seq<Candidate>, y: seq<Candidate>, cs: seq<Candidate>)
    requires x <= cs && y <= cs
    ensures x <= y || y <= x
  {
  }

  /** Of two prefixes one holds the other. */
  lemma Nested(x: seq<Candidate>, y: seq<Candidate>)
    requires x <= y || y <= x
    ensures SetOf(x) + SetOf(y) == if |x| < |y| then SetOf(y) else SetOf(x)
    ensures |x| >= |y| ==> SetOf(y) <= SetOf(x)
  {
  }

  /**
   When both see the same witnesses in the same order: the cap holds if and only if no row of the key
   went in after B's count query and before its candidates query, or what is pending at the latter fits.
   */
  lemma SameWitnessesKeepTheCapExactly(ledger: seq<Row>, a: seq<Candidate>, inA: World, i: nat, j: nat, inB: World,
                                       turns: seq<bool>, key: Selector)
    requires DistinctTx(a) && inA.window == inB.window
    requires key.ActionsOn? && IsCivil(key.on) && Count(ledger, key) <= RuleOf(key.kind).dailyCap
    requires i <= |PlanFor(a, ledger, inA)| && j <= |PlanFor(a, ledger, inA)|
    ensures var saw, counted := AfterInserts(ledger, a, inA, i), AfterInserts(ledger, a, inA, j);
            var cap, final := RuleOf(key.kind).dailyCap, AfterOverlap(ledger, a, inA, i, j, a, inB, turns);
            var pending := |PendingOn(a, saw, key, inA)|;
            && Count(final, key) == Count(saw, key) + Min(pending, cap - Min(Count(saw, key), Count(counted, key)))
            && (Count(final, key) <= cap <==>
                  Count(saw, key) <= Count(counted, key) || pending <= cap - Count(saw, key))
  {
    hide *;
    var saw, counted := AfterInserts(ledger, a, inA, i), AfterInserts(ledger, a, inA, j);
    var cap := RuleOf(key.kind).dailyCap;
    SeesItself(a);
    SetOfIsUnique(a);
    OverlapKeepsTheCapExactly(SetOf(a), ledger, a, inA, i, j, a, inB, turns, key);
    AfterInsertsKeepsCap(ledger, a, inA, i, key);
    AfterInsertsKeepsCap(ledger, a, inA, j, key);
    SamePending(a, saw, key, inA, inB);
    PendingInOrder(a, saw, key, inA);
    FirstOfBoth(PendingOn(a, saw, key, inA), cap - Count(saw, key), cap - Count(counted, key));
    LessUsedMoreRoom(cap, Count(saw, key), Count(counted, key));
  }

  lemma LessUsedMoreRoom(cap: nat, s: nat, c: nat)
    ensures cap - Min(s, c) == if cap - s < cap - c then cap - c else cap - s
  {
  }

  lemma SeesItself(a: seq<Candidate>)
    requires DistinctTx(a)
    ensures SeesOnce(a, SetOf(a))
  {
  }

  lemma {:induction false} SamePending(witnesses: seq<Candidate>, ledger: seq<Row>, key: Selector, inA: World,
                                       inB: World)
    requires inA.window == inB.window
    ensures PendingOn(witnesses, ledger, key, inA) == PendingOn(witnesses, ledger, key, inB)
  {
    hide HasRow, KeyOf, WithinWindow;
    if witnesses != [] { SamePending(witnesses[1..], ledger, key, inA, inB); }
  }

  /** In particular when the counts are read with the candidates or after them. */
  lemma CountsReadLastKeepTheCap(ledger: seq<Row>, a: seq<Candidate>, inA: World, i: nat, j: nat, inB: World,
                                 turns: seq<bool>, key: Selector)
    requires DistinctTx(a) && inA.window == inB.window
    requires key.ActionsOn? && IsCivil(key.on) && Count(ledger, key) <= RuleOf(key.kind).dailyCap
    requires i <= j <= |PlanFor(a, ledger, inA)|
    ensures Count(AfterOverlap(ledger, a, inA, i, j, a, inB, turns), key) <= RuleOf(key.kind).dailyCap
  {
    hide *;
    SameWitnessesKeepTheCapExactly(ledger, a, inA, i, j, inB, turns, key);
    MoreInserts(ledger, a, inA, i, j, key);
  }

  lemma MoreInserts(ledger: seq<Row>, a: seq<Candidate>, inA: World, i: nat, j: nat, key: Selector)
    requires i <= j <= |PlanFor(a, ledger, inA)|
    ensures Count(AfterInserts(ledger, a, inA, i), key) <= Count(AfterInserts(ledger, a, inA, j), key)
  {
    hide PlanFor, RowOfAward, Count;
    var rows := RowsOf(PlanFor(a, ledger, inA)[..j]);
    CountGrows(AfterInserts(ledger, a, inA, i), rows[i..], key);
    assert AfterInserts(ledger, a, inA, i) + rows[i..] == ledger + rows;
  }
}

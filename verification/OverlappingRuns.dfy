/**
 Runs of the award job that overlap: a manual one started while another is still inserting. Each reads
 its candidates, its counts and its check-ins in three queries of their own, so the ledger may grow
 between them; then their inserts interleave. The unique key keeps a witness from being awarded twice.
 Nothing but the plans keeps the daily cap.
 */
module OverlappingRuns {
  import opened Wrappers
  import opened Calendar
  import opened CampaignRules
  import opened PointsLedger
  import opened AwardPlanner
  import opened AwardSchedule

  /** insertActionAward for each row in turn. */
  function InsertAll(ledger: seq<Row>, rows: seq<Row>): seq<Row> {
    if rows == [] then ledger
    else InsertIdempotent(InsertAll(ledger, rows[..|rows| - 1]), rows[|rows| - 1])
  }

  lemma {:induction false} InsertAllInTwoParts(ledger: seq<Row>, a: seq<Row>, b: seq<Row>)
    ensures InsertAll(ledger, a + b) == InsertAll(InsertAll(ledger, a), b)
  {
    hide InsertIdempotent;
    if b == [] {
      assert a + b == a;
    } else {
      var n := |b| - 1;
      assert (a + b)[..|a + b| - 1] == a + b[..n] && (a + b)[|a + b| - 1] == b[n];
      InsertAllInTwoParts(ledger, a, b[..n]);
    }
  }

  // ---- What the inserts of award rows add to a count ----

  /** The witnesses behind the rows that `key` selects. */
  ghost function TxOn(rows: seq<Row>, key: Selector): set<string> {
    set r | r in rows && Selects(key, r) && r.reference.WitnessTx? :: r.reference.txHash
  }

  /** Award rows, of which those of one witness have one kind and are counted together. */
  ghost predicate AwardRows(rows: seq<Row>, key: Selector) {
    && (forall r :: r in rows ==> r.reference.WitnessTx?)
    && (forall r, q :: r in rows && q in rows && r.reference == q.reference ==>
          r.reason == q.reason && (Selects(key, r) <==> Selects(key, q)))
  }

  lemma {:induction false} ConflictsAfter(ledger: seq<Row>, rows: seq<Row>, row: Row)
    requires row.reference.WitnessTx?
    ensures Conflicts(InsertAll(ledger, rows), row) <==>
            Conflicts(ledger, row) || exists r :: r in rows && SameUniqueKey(r, row)
  {
    if rows != [] {
      var init, last := rows[..|rows| - 1], rows[|rows| - 1];
      ConflictsAfter(ledger, init, row);
      assert rows == init + [last];
      ConflictsAfterOne(InsertAll(ledger, init), last, row);
    }
  }

  lemma ConflictsAfterOne(ledger: seq<Row>, last: Row, row: Row)
    requires row.reference.WitnessTx?
    ensures Conflicts(InsertIdempotent(ledger, last), row) <==> Conflicts(ledger, row) || SameUniqueKey(last, row)
  {
    if Conflicts(ledger, last) {
      var i :| 0 <= i < |ledger| && SameUniqueKey(ledger[i], last);
    } else {
      var after := ledger + [last];
      assert after[|ledger|] == last;
      if i :| 0 <= i < |ledger| && SameUniqueKey(ledger[i], row) {
        assert SameUniqueKey(after[i], row);
      }
    }
  }

  /** Whatever the order of the inserts, the count grows by the number of witnesses behind them. */
  lemma {:induction false} InsertsAddWitnesses(ledger: seq<Row>, rows: seq<Row>, key: Selector)
    requires AwardRows(rows, key) && forall r :: r in rows ==> !Conflicts(ledger, r)
    ensures Count(InsertAll(ledger, rows), key) == Count(ledger, key) + |TxOn(rows, key)|
  {
    hide Conflicts, Count, Selects;
    if rows != [] {
      var init, last := rows[..|rows| - 1], rows[|rows| - 1];
      assert rows == init + [last];
      InsertsAddWitnesses(ledger, init, key);
      ConflictsAfter(ledger, init, last);
      Appended(InsertAll(ledger, init), last, key);
      OneMoreWitness(init, last, key);
    }
  }

  lemma OneMoreWitness(init: seq<Row>, last: Row, key: Selector)
    requires AwardRows(init + [last], key)
    ensures var known := exists r :: r in init && SameUniqueKey(r, last);
            |TxOn(init + [last], key)| == |TxOn(init, key)| + if Selects(key, last) && !known then 1 else 0
  {
    hide Selects, Lower, AwardRows, TxOn, SameUniqueKey;
    TxOnOneMore(init, last, key);
    if Selects(key, last) {
      KnownWitness(init, last, key);
      var tx := last.reference.txHash;
      assert tx in TxOn(init, key) ==> TxOn(init, key) + {tx} == TxOn(init, key);
    } else {
      assert TxOn(init, key) + {} == TxOn(init, key);
    }
  }

  lemma TxOnOneMore(init: seq<Row>, last: Row, key: Selector)
    requires AwardRows(init + [last], key)
    ensures last.reference.WitnessTx?
    ensures TxOn(init + [last], key) == TxOn(init, key) + if Selects(key, last) then {last.reference.txHash} else {}
  {
    hide Selects;
    assert last in init + [last];
    assert forall r :: r in init + [last] <==> r in init || r == last;
  }

  lemma KnownWitness(init: seq<Row>, last: Row, key: Selector)
    requires AwardRows(init + [last], key) && Selects(key, last) && last.reference.WitnessTx?
    ensures last.reference.txHash in TxOn(init, key) <==> exists r :: r in init && SameUniqueKey(r, last)
  {
    hide Selects, Lower;
    var rows := init + [last];
    assert last in rows && forall r :: r in init ==> r in rows;
    if r :| r in init && SameUniqueKey(r, last) {
      assert r in rows && r.reference == last.reference;
      assert Selects(key, r);
      assert r.reference.txHash in TxOn(init, key);
    }
    if last.reference.txHash in TxOn(init, key) {
      var r :| r in init && Selects(key, r) && r.reference.WitnessTx? && r.reference.txHash == last.reference.txHash;
      assert r in rows && r.reference == last.reference;
      assert SameUniqueKey(r, last);
    }
  }

  // ---- What a plan holds ----

  /** One run's plan: the candidates it saw in one ledger, the counts it read in another. */
  function Plan(witnesses: seq<Candidate>, saw: seq<Row>, counted: seq<Row>, world: World): seq<PlannedAward> {
    Awards(CandidatesOf(witnesses, saw, world), CountsOf(counted), world)
  }

  /** The candidates behind the awards of a plan, in order. */
  function Taken(cs: seq<Candidate>, counts: Counts, world: World): seq<Candidate> {
    if cs == [] then []
    else if Decide(cs[0], Get(counts, KeyOf(cs[0])), world).Granted? then
      [cs[0]] + Taken(cs[1..], Bump(counts, KeyOf(cs[0]), 1), world)
    else Taken(cs[1..], counts, world)
  }

  /** Those of one (wallet, kind, day). */
  function OnKey(cs: seq<Candidate>, key: Selector): seq<Candidate> {
    if cs == [] then []
    else if KeyOf(cs[0]) == key then [cs[0]] + OnKey(cs[1..], key)
    else OnKey(cs[1..], key)
  }

  /** The witnesses of one (wallet, kind, day) that may still earn on this ledger, in the order they are read. */
  function PendingOn(witnesses: seq<Candidate>, ledger: seq<Row>, key: Selector, world: World): seq<Candidate> {
    if witnesses == [] then []
    else
      var c, rest := witnesses[0], PendingOn(witnesses[1..], ledger, key, world);
      if KeyOf(c) == key && Eligible(c, world) && !HasRow(ledger, c) then [c] + rest else rest
  }

  function First(cs: seq<Candidate>, n: int): seq<Candidate> {
    if n <= 0 then [] else if n < |cs| then cs[..n] else cs
  }

  /** What a plan takes of one key, read off the witness list: the first ones pending, up to the room it counted. */
  function CutOf(witnesses: seq<Candidate>, saw: seq<Row>, counted: seq<Row>, key: Selector, world: World)
    : seq<Candidate>
    requires key.ActionsOn?
  {
    First(PendingOn(witnesses, saw, key, world), Room(RuleOf(key.kind).dailyCap, Count(counted, key)))
  }

  ghost function SetOf(witnesses: seq<Candidate>): set<Candidate> {
    set c | c in witnesses
  }

  /** The eligible ones of `key` among candidates already filtered by the query. */
  function EligibleOn(cs: seq<Candidate>, key: Selector, world: World): seq<Candidate> {
    if cs == [] then []
    else if KeyOf(cs[0]) == key && Eligible(cs[0], world) then [cs[0]] + EligibleOn(cs[1..], key, world)
    else EligibleOn(cs[1..], key, world)
  }

  lemma FirstSteps(c: Candidate, rest: seq<Candidate>, n: int)
    ensures First([c] + rest, n) == if n <= 0 then [] else [c] + First(rest, n - 1)
    ensures n <= 0 ==> First(rest, n) == []
  {
    if 0 < n < |[c] + rest| {
      assert ([c] + rest)[..n] == [c] + rest[..n - 1];
    }
  }

  /** For any counters and any candidates: a key's awards are its first eligible candidates, up to the room. */
  lemma {:induction false} TakenOnKey(cs: seq<Candidate>, counts: Counts, world: World, key: Selector)
    requires key.ActionsOn?
    ensures OnKey(Taken(cs, counts, world), key) ==
            First(EligibleOn(cs, key, world), Room(RuleOf(key.kind).dailyCap, Get(counts, key)))
  {
    hide *;
    var room := Room(RuleOf(key.kind).dailyCap, Get(counts, key));
    if cs == [] {
      NoneTaken(counts, key, room, world);
    } else {
      var c, rest := cs[0], cs[1..];
      var k := KeyOf(c);
      OneTaken(cs, counts, world);
      OneEligible(cs, key, world);
      FirstSteps(c, EligibleOn(rest, key, world), room);
      GrantedOnKey(c, counts, key, world);
      if Decide(c, Get(counts, k), world).Granted? {
        var bumped := Bump(counts, k, 1);
        TakenOnKey(rest, bumped, world, key);
        OneOnKey(c, Taken(rest, bumped, world), key);
      } else {
        TakenOnKey(rest, counts, world, key);
      }
    }
  }

  lemma NoneTaken(counts: Counts, key: Selector, n: int, world: World)
    ensures OnKey(Taken([], counts, world), key) == First(EligibleOn([], key, world), n)
  {
  }

  lemma OneTaken(cs: seq<Candidate>, counts: Counts, world: World)
    requires cs != []
    ensures Taken(cs, counts, world) ==
            if Decide(cs[0], Get(counts, KeyOf(cs[0])), world).Granted? then
              [cs[0]] + Taken(cs[1..], Bump(counts, KeyOf(cs[0]), 1), world)
            else Taken(cs[1..], counts, world)
  {
    hide Decide, KeyOf;
  }

  lemma OneEligible(cs: seq<Candidate>, key: Selector, world: World)
    requires cs != []
    ensures EligibleOn(cs, key, world) ==
            if KeyOf(cs[0]) == key && Eligible(cs[0], world) then [cs[0]] + EligibleOn(cs[1..], key, world)
            else EligibleOn(cs[1..], key, world)
  {
    hide Eligible, KeyOf;
  }

  lemma OneOnKey(c: Candidate, rest: seq<Candidate>, key: Selector)
    ensures OnKey([c] + rest, key) == if KeyOf(c) == key then [c] + OnKey(rest, key) else OnKey(rest, key)
  {
    hide KeyOf;
    assert ([c] + rest)[1..] == rest;
  }

  /** A grant takes one place of its own key and none of any other. */
  lemma GrantedOnKey(c: Candidate, counts: Counts, key: Selector, world: World)
    requires key.ActionsOn?
    ensures var granted, room := Decide(c, Get(counts, KeyOf(c)), world).Granted?,
                                 Room(RuleOf(key.kind).dailyCap, Get(counts, key));
            && (granted ==> Eligible(c, world))
            && (KeyOf(c) == key && Eligible(c, world) ==> (granted <==> room > 0))
            && Room(RuleOf(key.kind).dailyCap, Get(Bump(counts, KeyOf(c), 1), key)) ==
               if KeyOf(c) != key then room else if room > 0 then room - 1 else 0
  {
    hide Decide, Eligible, KeyOf;
    GrantedMeans(c, Get(counts, KeyOf(c)), world);
    KindOfKey(c, key);
  }

  lemma {:induction false} EligibleArePending(witnesses: seq<Candidate>, ledger: seq<Row>, key: Selector, world: World)
    ensures EligibleOn(CandidatesOf(witnesses, ledger, world), key, world) == PendingOn(witnesses, ledger, key, world)
  {
    hide KeyOf, HasRow, WithinWindow;
    if witnesses != [] {
      EligibleArePending(witnesses[1..], ledger, key, world);
      var c, rest := witnesses[0], CandidatesOf(witnesses[1..], ledger, world);
      assert ([c] + rest)[1..] == rest;
    }
  }

  lemma PlanTakesTheCut(witnesses: seq<Candidate>, saw: seq<Row>, counted: seq<Row>, key: Selector, world: World)
    requires key.ActionsOn?
    ensures OnKey(Taken(CandidatesOf(witnesses, saw, world), CountsOf(counted), world), key) ==
            CutOf(witnesses, saw, counted, key, world)
  {
    hide Taken, CandidatesOf, OnKey, PendingOn, First, EligibleOn, Count;
    TakenOnKey(CandidatesOf(witnesses, saw, world), CountsOf(counted), world, key);
    EligibleArePending(witnesses, saw, key, world);
    CountsOfMatches(counted);
  }

  // ---- From plans to rows ----

  /** The row of an award of `c`, but for the points, which depend on the check-ins the run read. */
  predicate IsRowOf(r: Row, c: Candidate) {
    && r.address == c.address && r.reason == Action(c.kind) && r.reference == WitnessTx(c.txHash)
    && r.countedDay == Some(UtcDay(c.closedAtMs))
  }

  /** Row by row, the rows are those of the witnesses. */
  ghost predicate Match(rows: seq<Row>, taken: seq<Candidate>) {
    |rows| == |taken| && forall n :: 0 <= n < |rows| ==> IsRowOf(rows[n], taken[n])
  }

  ghost predicate RowsFor(rows: seq<Row>, from: set<Candidate>, ledger: seq<Row>) {
    forall r :: r in rows ==> exists c :: c in from && IsRowOf(r, c) && !HasRow(ledger, c)
  }

  lemma {:induction false} TakenMatch(cs: seq<Candidate>, counts: Counts, world: World)
    ensures |Taken(cs, counts, world)| == |Awards(cs, counts, world)|
    ensures Match(RowsOf(Awards(cs, counts, world)), Taken(cs, counts, world))
    ensures forall c :: c in Taken(cs, counts, world) ==> c in cs
  {
    hide Decide, KeyOf, IsRowOf, RowOfAward;
    if cs != [] {
      var c, n := cs[0], Get(counts, KeyOf(cs[0]));
      if Decide(c, n, world).Granted? {
        TakenMatch(cs[1..], Bump(counts, KeyOf(c), 1), world);
        GrantedRow(c, n, world);
      } else {
        TakenMatch(cs[1..], counts, world);
      }
    }
  }

  lemma GrantedRow(c: Candidate, counted: int, world: World)
    requires Decide(c, counted, world).Granted?
    ensures IsRowOf(RowOfAward(ToPlanned(c, Decide(c, counted, world))), c)
  {
    GrantedMeans(c, counted, world);
  }

  lemma RowAndWitness(r: Row, c: Candidate, key: Selector)
    requires IsRowOf(r, c) && key.ActionsOn?
    ensures (Selects(key, r) <==> KeyOf(c) == key) && r.reference == WitnessTx(c.txHash)
  {
    hide UtcDay, Lower;
  }

  lemma {:induction false} InOnKey(cs: seq<Candidate>, key: Selector, c: Candidate)
    ensures c in OnKey(cs, key) <==> c in cs && KeyOf(c) == key
  {
    hide KeyOf;
    if cs != [] { InOnKey(cs[1..], key, c); }
  }

  ghost function TxOf(cs: set<Candidate>): set<string> {
    set c | c in cs :: c.txHash
  }

  /** The rows a key selects are those of the witnesses it selects. */
  lemma TxOfMatch(rows: seq<Row>, taken: seq<Candidate>, key: Selector)
    requires Match(rows, taken) && key.ActionsOn?
    ensures TxOn(rows, key) == TxOf(SetOf(OnKey(taken, key)))
  {
    hide OnKey, KeyOf, Selects, IsRowOf;
    forall c ensures c in OnKey(taken, key) <==> c in taken && KeyOf(c) == key {
      InOnKey(taken, key, c);
    }
    forall n | 0 <= n < |rows|
      ensures (Selects(key, rows[n]) <==> KeyOf(taken[n]) == key) && rows[n].reference == WitnessTx(taken[n].txHash)
    {
      RowAndWitness(rows[n], taken[n], key);
    }
    forall tx | tx in TxOn(rows, key) ensures tx in TxOf(SetOf(OnKey(taken, key))) {
      var r :| r in rows && Selects(key, r) && r.reference.WitnessTx? && r.reference.txHash == tx;
      var n :| 0 <= n < |rows| && rows[n] == r;
      assert taken[n] in OnKey(taken, key);
    }
    forall tx | tx in TxOf(SetOf(OnKey(taken, key))) ensures tx in TxOn(rows, key) {
      var c :| c in OnKey(taken, key) && c.txHash == tx;
      var n :| 0 <= n < |taken| && taken[n] == c;
      assert rows[n] in rows;
    }
  }

  lemma {:induction false} CandidatesAreNew(witnesses: seq<Candidate>, ledger: seq<Row>, world: World)
    ensures forall c :: c in CandidatesOf(witnesses, ledger, world) ==> c in witnesses && !HasRow(ledger, c)
  {
    CandidatesAreUnrecorded(witnesses, ledger, [], world);
  }

  /** What a plan's first `n` rows are, for any two ledgers it was read from. */
  lemma PlannedRows(witnesses: seq<Candidate>, saw: seq<Row>, counted: seq<Row>, world: World, n: nat, key: Selector)
    requires key.ActionsOn? && n <= |Plan(witnesses, saw, counted, world)|
    ensures var taken := Taken(CandidatesOf(witnesses, saw, world), CountsOf(counted), world);
            var rows := RowsOf(Plan(witnesses, saw, counted, world))[..n];
            && |taken| == |Plan(witnesses, saw, counted, world)|
            && TxOn(rows, key) == TxOf(SetOf(OnKey(taken[..n], key)))
            && RowsFor(rows, SetOf(witnesses), saw)
            && SetOf(taken) <= SetOf(witnesses)
  {
    hide Taken, OnKey, IsRowOf, HasRow, TxOn, TxOf, CandidatesOf, Awards, RowOfAward;
    var cs, counts := CandidatesOf(witnesses, saw, world), CountsOf(counted);
    var taken := Taken(cs, counts, world);
    TakenMatch(cs, counts, world);
    CandidatesAreNew(witnesses, saw, world);
    var rows := RowsOf(Plan(witnesses, saw, counted, world))[..n];
    assert Match(rows, taken[..n]);
    TxOfMatch(rows, taken[..n], key);
    forall r | r in rows ensures exists c :: c in SetOf(witnesses) && IsRowOf(r, c) && !HasRow(saw, c) {
      var k :| 0 <= k < |rows| && rows[k] == r;
      assert IsRowOf(rows[k], taken[k]) && taken[k] in taken;
    }
  }

  // ---- Any number of runs ----

  lemma NoneInTheWay(rows: seq<Row>, from: set<Candidate>, ledger: seq<Row>)
    requires RowsFor(rows, from, ledger)
    ensures forall r :: r in rows ==> !Conflicts(ledger, r)
  {
    hide UtcDay;
    forall r | r in rows ensures !Conflicts(ledger, r) {
      var c :| c in from && IsRowOf(r, c) && !HasRow(ledger, c);
    }
  }

  lemma OneWitnessOneKind(rows: seq<Row>, from: set<Candidate>, ledger: seq<Row>, key: Selector)
    requires UniqueTx(from) && RowsFor(rows, from, ledger) && key.ActionsOn?
    ensures AwardRows(rows, key)
  {
    hide UtcDay, HasRow, Lower;
    forall r, q | r in rows && q in rows && r.reference == q.reference
      ensures r.reason == q.reason && (Selects(key, r) <==> Selects(key, q))
    {
      var c :| c in from && IsRowOf(r, c) && !HasRow(ledger, c);
      var d :| d in from && IsRowOf(q, d) && !HasRow(ledger, d);
      assert c == d;
    }
  }

  lemma {:induction false} AsManyTx(cs: set<Candidate>)
    requires UniqueTx(cs)
    ensures |TxOf(cs)| == |cs|
  {
    if c :| c in cs {
      var rest := cs - {c};
      AsManyTx(rest);
      assert cs == rest + {c};
      assert TxOf(cs) == TxOf(rest) + {c.txHash};
    }
  }

  /** Rows of witnesses that had none, inserted in any order by anyone, add one each to what counts them. */
  lemma RowsAddTheirWitnesses(all: set<Candidate>, ledger: seq<Row>, rows: seq<Row>, key: Selector,
                              written: set<Candidate>)
    requires UniqueTx(all) && RowsFor(rows, all, ledger) && key.ActionsOn?
    requires written <= all && TxOn(rows, key) == TxOf(written)
    ensures Count(InsertAll(ledger, rows), key) == Count(ledger, key) + |written|
  {
    hide RowsFor, TxOn, AwardRows, TxOf, Count, Conflicts, InsertAll;
    NoneInTheWay(rows, all, ledger);
    OneWitnessOneKind(rows, all, ledger, key);
    InsertsAddWitnesses(ledger, rows, key);
    AsManyTx(written);
  }

  /**
   A run that read its candidates after the first `sawAt` inserts of all runs together, and its counts
   after the first `countedAt`.
   */
  datatype JobRun = JobRun(witnesses: seq<Candidate>, world: World, sawAt: nat, countedAt: nat)

  predicate HasRead(run: JobRun, n: nat) {
    run.sawAt <= n && run.countedAt <= n
  }

  function SawLedger(run: JobRun, ledger: seq<Row>, rows: seq<Row>): seq<Row>
    requires HasRead(run, |rows|)
  {
    InsertAll(ledger, rows[..run.sawAt])
  }

  function CountedLedger(run: JobRun, ledger: seq<Row>, rows: seq<Row>): seq<Row>
    requires HasRead(run, |rows|)
  {
    InsertAll(ledger, rows[..run.countedAt])
  }

  function PlanOf(run: JobRun, ledger: seq<Row>, rows: seq<Row>): seq<PlannedAward>
    requires HasRead(run, |rows|)
  {
    Plan(run.witnesses, SawLedger(run, ledger, rows), CountedLedger(run, ledger, rows), run.world)
  }

  /** The witnesses of its plan, in order. */
  function TakenBy(run: JobRun, ledger: seq<Row>, rows: seq<Row>): seq<Candidate>
    requires HasRead(run, |rows|)
  {
    Taken(CandidatesOf(run.witnesses, SawLedger(run, ledger, rows), run.world),
          CountsOf(CountedLedger(run, ledger, rows)), run.world)
  }

  function CutBy(run: JobRun, ledger: seq<Row>, rows: seq<Row>, key: Selector): seq<Candidate>
    requires HasRead(run, |rows|) && key.ActionsOn?
  {
    CutOf(run.witnesses, SawLedger(run, ledger, rows), CountedLedger(run, ledger, rows), key, run.world)
  }

  /** The inserts that run `r` makes among those of all. */
  function OwnRows(rows: seq<Row>, owners: seq<nat>, r: nat): seq<Row>
    requires |owners| == |rows|
  {
    if rows == [] then []
    else
      var n := |rows| - 1;
      OwnRows(rows[..n], owners[..n], r) + if owners[n] == r then [rows[n]] else []
  }

  /**
   A history of overlapping runs: insert `n` is made by run `owners[n]`, after all its reads, and each
   run inserts its plan in order, all of it or up to where it crashed.
   */
  ghost predicate IsOverlap(ledger: seq<Row>, runs: seq<JobRun>, rows: seq<Row>, owners: seq<nat>) {
    && |owners| == |rows|
    && (forall n :: 0 <= n < |rows| ==> owners[n] < |runs| && HasRead(runs[owners[n]], n))
    && (forall r :: 0 <= r < |runs| ==>
          HasRead(runs[r], |rows|) && OwnRows(rows, owners, r) <= RowsOf(PlanOf(runs[r], ledger, rows)))
  }

  predicate IsFinished(run: JobRun, ledger: seq<Row>, rows: seq<Row>, own: seq<Row>)
    requires HasRead(run, |rows|)
  {
    |own| == |PlanOf(run, ledger, rows)|
  }

  /** The witnesses of `key` behind a run's own inserts. */
  ghost function WroteOn(run: JobRun, ledger: seq<Row>, rows: seq<Row>, own: seq<Row>, key: Selector): set<Candidate>
    requires HasRead(run, |rows|)
  {
    var taken := TakenBy(run, ledger, rows);
    SetOf(OnKey(if |own| < |taken| then taken[..|own|] else taken, key))
  }

  ghost function AllWroteOn(ledger: seq<Row>, runs: seq<JobRun>, rows: seq<Row>, owners: seq<nat>, key: Selector)
    : set<Candidate>
    requires IsOverlap(ledger, runs, rows, owners)
  {
    set r, c | 0 <= r < |runs| && c in WroteOn(runs[r], ledger, rows, OwnRows(rows, owners, r), key) :: c
  }

  lemma {:induction false} InsertAllExtends(ledger: seq<Row>, rows: seq<Row>)
    ensures ledger <= InsertAll(ledger, rows)
  {
    if rows != [] { InsertAllExtends(ledger, rows[..|rows| - 1]); }
  }

  lemma RowsStay(ledger: seq<Row>, later: seq<Row>, c: Candidate)
    requires ledger <= later && HasRow(ledger, c)
    ensures HasRow(later, c)
  {
    var i :| 0 <= i < |ledger| && ledger[i].reason == Action(c.kind) && ledger[i].reference == WitnessTx(c.txHash);
    assert later[i] == ledger[i];
  }

  lemma {:induction false} OwnRowsHold(rows: seq<Row>, owners: seq<nat>, r: nat, row: Row)
    requires |owners| == |rows|
    ensures row in OwnRows(rows, owners, r) <==> exists n :: 0 <= n < |rows| && owners[n] == r && rows[n] == row
  {
    hide *;
    if rows == [] {
      NoRowsOwned(owners, r);
    } else {
      var k := |rows| - 1;
      var init, before := rows[..k], owners[..k];
      OneMoreOwned(rows, owners, r, row);
      OwnRowsHold(init, before, r, row);
      if n :| 0 <= n < k && owners[n] == r && rows[n] == row {
        assert before[n] == r && init[n] == row;
      }
      if n :| 0 <= n < |init| && before[n] == r && init[n] == row {
        assert owners[n] == r && rows[n] == row;
      }
    }
  }

  lemma NoRowsOwned(owners: seq<nat>, r: nat)
    requires |owners| == 0
    ensures OwnRows([], owners, r) == []
  {
  }

  lemma OneMoreOwned(rows: seq<Row>, owners: seq<nat>, r: nat, row: Row)
    requires |owners| == |rows| > 0
    ensures var n := |rows| - 1;
            row in OwnRows(rows, owners, r) <==>
            row in OwnRows(rows[..n], owners[..n], r) || (owners[n] == r && row == rows[n])
  {
  }

  lemma EveryRowIsOwned(rows: seq<Row>, owners: seq<nat>, row: Row)
    requires |owners| == |rows|
    ensures row in rows <==> exists n :: 0 <= n < |rows| && row in OwnRows(rows, owners, owners[n])
    ensures forall r :: row in OwnRows(rows, owners, r) ==> r in owners && row in rows
  {
    hide OwnRows;
    forall r: nat
      ensures row in OwnRows(rows, owners, r) <==> exists n :: 0 <= n < |rows| && owners[n] == r && rows[n] == row
    {
      OwnRowsHold(rows, owners, r, row);
    }
    if row in rows {
      var n :| 0 <= n < |rows| && rows[n] == row;
      assert row in OwnRows(rows, owners, owners[n]);
    }
  }

  /** One run's share, whatever ledgers it read. */
  lemma OwnShare(all: set<Candidate>, ledger: seq<Row>, run: JobRun, rows: seq<Row>, own: seq<Row>, key: Selector)
    requires HasRead(run, |rows|) && own <= RowsOf(PlanOf(run, ledger, rows)) && key.ActionsOn?
    requires SetOf(run.witnesses) <= all
    ensures TxOn(own, key) == TxOf(WroteOn(run, ledger, rows, own, key))
    ensures RowsFor(own, all, ledger) && WroteOn(run, ledger, rows, own, key) <= all
    ensures WroteOn(run, ledger, rows, own, key) <= SetOf(CutBy(run, ledger, rows, key))
    ensures IsFinished(run, ledger, rows, own) ==>
              WroteOn(run, ledger, rows, own, key) == SetOf(CutBy(run, ledger, rows, key))
  {
    hide Taken, OnKey, IsRowOf, HasRow, TxOn, TxOf, CandidatesOf, RowsOf, Plan, CutOf, InsertAll, CountsOf;
    var saw, counted := SawLedger(run, ledger, rows), CountedLedger(run, ledger, rows);
    var taken := TakenBy(run, ledger, rows);
    RowsOfLength(PlanOf(run, ledger, rows));
    PlannedRows(run.witnesses, saw, counted, run.world, |own|, key);
    PlanTakesTheCut(run.witnesses, saw, counted, key, run.world);
    assert RowsOf(PlanOf(run, ledger, rows))[..|own|] == own;
    OnKeyOfPrefix(taken, |own|, key);
    InsertAllExtends(ledger, rows[..run.sawAt]);
    EarlierRowsFor(own, SetOf(run.witnesses), all, saw, ledger);
  }

  lemma RowsOfLength(awards: seq<PlannedAward>)
    ensures |RowsOf(awards)| == |awards|
  {
  }

  lemma OnKeyOfPrefix(cs: seq<Candidate>, n: nat, key: Selector)
    requires n <= |cs|
    ensures SetOf(OnKey(cs[..n], key)) <= SetOf(OnKey(cs, key)) <= SetOf(cs)
    ensures n == |cs| ==> cs[..n] == cs
  {
    hide OnKey, KeyOf;
    forall c
      ensures c in OnKey(cs[..n], key) ==> c in OnKey(cs, key)
      ensures c in OnKey(cs, key) ==> c in cs
    {
      InOnKey(cs, key, c);
      InOnKey(cs[..n], key, c);
    }
  }

  lemma EarlierRowsFor(rows: seq<Row>, from: set<Candidate>, all: set<Candidate>, saw: seq<Row>, ledger: seq<Row>)
    requires RowsFor(rows, from, saw) && ledger <= saw && from <= all
    ensures RowsFor(rows, all, ledger)
  {
    hide IsRowOf, HasRow;
    forall r | r in rows ensures exists c :: c in all && IsRowOf(r, c) && !HasRow(ledger, c) {
      var c :| c in from && IsRowOf(r, c) && !HasRow(saw, c);
      if HasRow(ledger, c) { RowsStay(ledger, saw, c); }
    }
  }

  /**
   Any number of runs, their reads and inserts in any order, some of them crashed: each count grows by
   the union of what the runs wrote. A run that finished wrote exactly the first ones of its key that
   its candidates query left pending, up to the room its count query left.
   */
  lemma OverlapsAddTheUnion(all: set<Candidate>, ledger: seq<Row>, runs: seq<JobRun>, rows: seq<Row>,
                            owners: seq<nat>, key: Selector)
    requires UniqueTx(all) && key.ActionsOn? && IsOverlap(ledger, runs, rows, owners)
    requires forall r :: 0 <= r < |runs| ==> SetOf(runs[r].witnesses) <= all
    ensures Count(InsertAll(ledger, rows), key) ==
            Count(ledger, key) + |AllWroteOn(ledger, runs, rows, owners, key)|
    ensures forall r :: 0 <= r < |runs| ==>
              var own, cut := OwnRows(rows, owners, r), CutBy(runs[r], ledger, rows, key);
              && WroteOn(runs[r], ledger, rows, own, key) <= SetOf(cut)
              && (IsFinished(runs[r], ledger, rows, own) ==> WroteOn(runs[r], ledger, rows, own, key) == SetOf(cut))
  {
    hide UniqueTx, OwnRows, RowsOf, PlanOf, CutBy, WroteOn, TxOn, TxOf, RowsFor, IsFinished, InsertAll, Count, SetOf;
    forall r | 0 <= r < |runs|
      ensures var own := OwnRows(rows, owners, r);
              && OwnShareOf(all, ledger, runs[r], rows, own, key)
    {
      OwnShare(all, ledger, runs[r], rows, OwnRows(rows, owners, r), key);
    }
    SharesMakeTheWhole(all, ledger, runs, rows, owners, key);
    RowsAddTheirWitnesses(all, ledger, rows, key, AllWroteOn(ledger, runs, rows, owners, key));
  }

  ghost predicate OwnShareOf(all: set<Candidate>, ledger: seq<Row>, run: JobRun, rows: seq<Row>, own: seq<Row>,
                             key: Selector)
    requires HasRead(run, |rows|) && key.ActionsOn?
  {
    var wrote := WroteOn(run, ledger, rows, own, key);
    && TxOn(own, key) == TxOf(wrote) && RowsFor(own, all, ledger) && wrote <= all
    && wrote <= SetOf(CutBy(run, ledger, rows, key))
    && (IsFinished(run, ledger, rows, own) ==> wrote == SetOf(CutBy(run, ledger, rows, key)))
  }

  lemma SharesMakeTheWhole(all: set<Candidate>, ledger: seq<Row>, runs: seq<JobRun>, rows: seq<Row>,
                           owners: seq<nat>, key: Selector)
    requires IsOverlap(ledger, runs, rows, owners) && key.ActionsOn?
    requires forall r :: 0 <= r < |runs| ==> OwnShareOf(all, ledger, runs[r], rows, OwnRows(rows, owners, r), key)
    ensures RowsFor(rows, all, ledger)
    ensures TxOn(rows, key) == TxOf(AllWroteOn(ledger, runs, rows, owners, key))
    ensures AllWroteOn(ledger, runs, rows, owners, key) <= all
  {
    hide OwnRows, RowsOf, PlanOf, CutBy, WroteOn, IsFinished, IsRowOf, HasRow, Selects, SetOf;
    var written := AllWroteOn(ledger, runs, rows, owners, key);
    forall row ensures row in rows <==> exists r :: 0 <= r < |runs| && row in OwnRows(rows, owners, r) {
      EveryRowIsOwned(rows, owners, row);
    }
    forall r | 0 <= r < |runs|
      ensures TxOn(OwnRows(rows, owners, r), key) == TxOf(WroteOn(runs[r], ledger, rows, OwnRows(rows, owners, r), key))
      ensures RowsFor(OwnRows(rows, owners, r), all, ledger)
    {
      assert OwnShareOf(all, ledger, runs[r], rows, OwnRows(rows, owners, r), key);
    }
    forall tx | tx in TxOn(rows, key) ensures tx in TxOf(written) {
      var row :| row in rows && Selects(key, row) && row.reference.WitnessTx? && row.reference.txHash == tx;
      var r :| 0 <= r < |runs| && row in OwnRows(rows, owners, r);
      assert tx in TxOn(OwnRows(rows, owners, r), key);
    }
    forall tx | tx in TxOf(written) ensures tx in TxOn(rows, key) {
      var c :| c in written && c.txHash == tx;
      var r :| 0 <= r < |runs| && c in WroteOn(runs[r], ledger, rows, OwnRows(rows, owners, r), key);
      assert tx in TxOn(OwnRows(rows, owners, r), key);
    }
  }

  ghost predicate AllFinished(ledger: seq<Row>, runs: seq<JobRun>, rows: seq<Row>, owners: seq<nat>)
    requires IsOverlap(ledger, runs, rows, owners)
  {
    forall r :: 0 <= r < |runs| ==> IsFinished(runs[r], ledger, rows, OwnRows(rows, owners, r))
  }

  ghost function AllCuts(ledger: seq<Row>, runs: seq<JobRun>, rows: seq<Row>, key: Selector): set<Candidate>
    requires key.ActionsOn? && forall r :: 0 <= r < |runs| ==> HasRead(runs[r], |rows|)
  {
    set r, c | 0 <= r < |runs| && c in CutBy(runs[r], ledger, rows, key) :: c
  }

  /** So any number of finished runs keep the cap exactly when their first ones pending fit together. */
  lemma OverlapsKeepTheCapExactly(all: set<Candidate>, ledger: seq<Row>, runs: seq<JobRun>, rows: seq<Row>,
                                  owners: seq<nat>, key: Selector)
    requires UniqueTx(all) && key.ActionsOn? && IsOverlap(ledger, runs, rows, owners)
    requires forall r :: 0 <= r < |runs| ==> SetOf(runs[r].witnesses) <= all
    requires AllFinished(ledger, runs, rows, owners)
    ensures Count(InsertAll(ledger, rows), key) == Count(ledger, key) + |AllCuts(ledger, runs, rows, key)|
    ensures Count(InsertAll(ledger, rows), key) <= RuleOf(key.kind).dailyCap <==>
            |AllCuts(ledger, runs, rows, key)| <= RuleOf(key.kind).dailyCap - Count(ledger, key)
  {
    hide UniqueTx, OwnRows, RowsOf, PlanOf, CutBy, WroteOn, IsFinished, InsertAll, Count, RuleOf;
    OverlapsAddTheUnion(all, ledger, runs, rows, owners, key);
    var written, cuts := AllWroteOn(ledger, runs, rows, owners, key), AllCuts(ledger, runs, rows, key);
    forall r, c | 0 <= r < |runs|
      ensures c in WroteOn(runs[r], ledger, rows, OwnRows(rows, owners, r), key) <==>
              c in CutBy(runs[r], ledger, rows, key)
    {
      assert IsFinished(runs[r], ledger, rows, OwnRows(rows, owners, r));
    }
    assert written == cuts;
  }
}

/**
 The sweep that drives the evaluator: rules are dispatched by family, and every health-factor rule
 is run against its in-scope rows, persisting state and appending notifications as it goes. The
 sweep is proved to be one independent machine per (rule, wallet, pool).
 */
module AlertSweep {
  import opened Wrappers
  import opened AlertMachine

  datatype AlertRule = AlertRule(id: string, userId: string, metric: string, userWalletId: Option<string>,
                                 poolEntityId: Option<string>, rule: Rule)

  datatype HealthRow = HealthRow(userWalletId: string, poolEntityId: string, userId: string, healthFactor: Option<real>)

  /** Primary key of alert_rule_state. */
  datatype Subject = Subject(ruleId: string, userWalletId: string, poolEntityId: string)

  datatype Notification = Notification(userId: string, subject: Subject, kind: Emission, value: Option<real>, at: int)

  type States = map<Subject, RuleState>

  function Lookup(states: States, k: Subject): Option<RuleState> {
    if k in states then Some(states[k]) else None
  }

  // ---- Family dispatch ----

  datatype Family = HealthFactor | Price | TvlDrop | Apy | Unknown

  function FamilyOf(metric: string): Family {
    if metric == "health_factor" then HealthFactor
    else if metric == "price" then Price
    else if metric == "tvl_drop_pct" then TvlDrop
    else if metric == "supply_apy" || metric == "borrow_apy" then Apy
    else Unknown
  }

  datatype Partition = Partition(healthFactor: seq<AlertRule>, price: seq<AlertRule>, tvlDrop: seq<AlertRule>,
                                 apy: seq<AlertRule>, unknown: seq<AlertRule>)

  function OfFamily(rules: seq<AlertRule>, f: Family): seq<AlertRule> {
    if rules == [] then []
    else OfFamily(Init(rules), f) + if FamilyOf(Last(rules).metric) == f then [Last(rules)] else []
  }

  /** Every rule lands in exactly one bucket, in its original order. */
  method PartitionRulesByFamily(rules: seq<AlertRule>) returns (out: Partition)
    ensures out == Partition(OfFamily(rules, HealthFactor), OfFamily(rules, Price), OfFamily(rules, TvlDrop),
                             OfFamily(rules, Apy), OfFamily(rules, Unknown))
    ensures |out.healthFactor| + |out.price| + |out.tvlDrop| + |out.apy| + |out.unknown| == |rules|
  {
    out := Partition([], [], [], [], []);
    for i := 0 to |rules|
      invariant out == Partition(OfFamily(rules[..i], HealthFactor), OfFamily(rules[..i], Price),
                                 OfFamily(rules[..i], TvlDrop), OfFamily(rules[..i], Apy),
                                 OfFamily(rules[..i], Unknown))
      invariant |out.healthFactor| + |out.price| + |out.tvlDrop| + |out.apy| + |out.unknown| == i
    {
      var r := rules[i];
      assert Init(rules[..i + 1]) == rules[..i];
      if r.metric == "health_factor" { out := out.(healthFactor := out.healthFactor + [r]); }
      else if r.metric == "price" { out := out.(price := out.price + [r]); }
      else if r.metric == "tvl_drop_pct" { out := out.(tvlDrop := out.tvlDrop + [r]); }
      else if r.metric == "supply_apy" || r.metric == "borrow_apy" { out := out.(apy := out.apy + [r]); }
      else { out := out.(unknown := out.unknown + [r]); }
    }
    assert rules[..|rules|] == rules;
  }

  lemma {:induction false} FamilyMembers(rules: seq<AlertRule>, f: Family)
    ensures forall r :: r in OfFamily(rules, f) <==> r in rules && FamilyOf(r.metric) == f
  {
    hide FamilyOf;
    if rules != [] {
      FamilyMembers(Init(rules), f);
      assert rules == Init(rules) + [Last(rules)];
    }
  }

  lemma {:induction false} FamilyKeepsIdsDistinct(rules: seq<AlertRule>, f: Family)
    requires DistinctIds(rules)
    ensures DistinctIds(OfFamily(rules, f))
  {
    hide FamilyOf;
    if rules != [] {
      var init := Init(rules);
      FamilyKeepsIdsDistinct(init, f);
      FamilyMembers(init, f);
      forall i | 0 <= i < |OfFamily(init, f)| ensures OfFamily(init, f)[i].id != Last(rules).id {
        assert OfFamily(init, f)[i] in init;
        var j :| 0 <= j < |init| && init[j] == OfFamily(init, f)[i];
        assert rules[j] == init[j];
      }
    }
  }

  // ---- What one subject is given by a sweep ----

  predicate InScope(r: AlertRule, row: HealthRow) {
    && row.userId == r.userId
    && (r.userWalletId.None? || row.userWalletId == r.userWalletId.value)
    && (r.poolEntityId.None? || row.poolEntityId == r.poolEntityId.value)
  }

  function Matched(r: AlertRule, rows: seq<HealthRow>): seq<HealthRow> {
    if rows == [] then []
    else Matched(r, Init(rows)) + if InScope(r, Last(rows)) then [Last(rows)] else []
  }

  function FindRow(rows: seq<HealthRow>, k: Subject): Option<HealthRow> {
    if rows == [] then None
    else if Last(rows).userWalletId == k.userWalletId && Last(rows).poolEntityId == k.poolEntityId then Some(Last(rows))
    else FindRow(Init(rows), k)
  }

  function FindRule(rules: seq<AlertRule>, id: string): Option<AlertRule> {
    if rules == [] then None
    else if Last(rules).id == id then Some(Last(rules))
    else FindRule(Init(rules), id)
  }

  /** The observation a sweep over `rules` and `rows` makes of subject `k`, if any. */
  function Observed(rules: seq<AlertRule>, rows: seq<HealthRow>, k: Subject): Option<(AlertRule, HealthRow)> {
    var r := FindRule(rules, k.ruleId);
    if r.None? then None
    else
      var row := FindRow(Matched(r.value, rows), k);
      if row.None? then None else Some((r.value, row.value))
  }

  /** One independent machine: the subject's next state, from its own state and observation alone. */
  function Stepped(o: Option<(AlertRule, HealthRow)>, prev: Option<RuleState>, now: int): Option<RuleState> {
    if o.None? then prev else Some(Evaluate(o.value.0.rule, o.value.1.healthFactor, prev, now).0)
  }

  function Notified(o: Option<(AlertRule, HealthRow)>, k: Subject, prev: Option<RuleState>,
                    now: int): seq<Notification> {
    if o.None? then []
    else
      var e := Evaluate(o.value.0.rule, o.value.1.healthFactor, prev, now).1;
      if e.None? then [] else [Notification(o.value.0.userId, k, e.value, o.value.1.healthFactor, now)]
  }

  function About(ns: seq<Notification>, k: Subject): seq<Notification> {
    if ns == [] then [] else About(Init(ns), k) + if Last(ns).subject == k then [Last(ns)] else []
  }

  lemma AboutAppended(ns: seq<Notification>, n: Notification, k: Subject)
    ensures About(ns + [n], k) == About(ns, k) + if n.subject == k then [n] else []
  {
    assert Init(ns + [n]) == ns;
  }

  /** What `done` rows of a rule's matched rows have done to subject `k`. */
  ghost predicate RuleDone(r: AlertRule, done: seq<HealthRow>, before: States, after: States,
                           ns: seq<Notification>, ns': seq<Notification>, now: int, k: Subject)
  {
    var row := FindRow(done, k);
    var o := if k.ruleId == r.id && row.Some? then Some((r, row.value)) else None;
    && Lookup(after, k) == Stepped(o, Lookup(before, k), now)
    && About(ns', k) == About(ns, k) + Notified(o, k, Lookup(before, k), now)
  }

  ghost predicate RulesDone(rules: seq<AlertRule>, rows: seq<HealthRow>, before: States, after: States,
                            ns: seq<Notification>, ns': seq<Notification>, now: int, k: Subject)
  {
    var o := Observed(rules, rows, k);
    && Lookup(after, k) == Stepped(o, Lookup(before, k), now)
    && About(ns', k) == About(ns, k) + Notified(o, k, Lookup(before, k), now)
  }

  ghost predicate DistinctRows(rows: seq<HealthRow>) {
    forall i, j :: 0 <= i < j < |rows| ==>
      rows[i].userWalletId != rows[j].userWalletId || rows[i].poolEntityId != rows[j].poolEntityId
  }

  ghost predicate DistinctIds(rules: seq<AlertRule>) {
    forall i, j :: 0 <= i < j < |rules| ==> rules[i].id != rules[j].id
  }

  lemma {:induction false} MatchedRows(r: AlertRule, rows: seq<HealthRow>)
    ensures forall row :: row in Matched(r, rows) ==> row in rows && InScope(r, row)
    ensures DistinctRows(rows) ==> DistinctRows(Matched(r, rows))
  {
    if rows != [] {
      MatchedRows(r, Init(rows));
      assert rows == Init(rows) + [Last(rows)];
      if DistinctRows(rows) {
        forall row | row in Init(rows)
          ensures row.userWalletId != Last(rows).userWalletId || row.poolEntityId != Last(rows).poolEntityId
        {
          var i :| 0 <= i < |Init(rows)| && Init(rows)[i] == row;
          assert rows[i] == row;
        }
        assert forall i :: 0 <= i < |Matched(r, Init(rows))| ==> Matched(r, Init(rows))[i] in Init(rows);
      }
    }
  }

  lemma {:induction false} FoundRow(rows: seq<HealthRow>, k: Subject)
    ensures var row := FindRow(rows, k);
            row.Some? ==>
              && row.value in rows
              && row.value.userWalletId == k.userWalletId && row.value.poolEntityId == k.poolEntityId
    ensures FindRow(rows, k).None? ==>
              forall row :: row in rows ==> row.userWalletId != k.userWalletId || row.poolEntityId != k.poolEntityId
  {
    if rows != [] { FoundRow(Init(rows), k); }
  }

  lemma {:induction false} FoundRule(rules: seq<AlertRule>, id: string)
    ensures FindRule(rules, id).Some? ==> FindRule(rules, id).value in rules && FindRule(rules, id).value.id == id
    ensures FindRule(rules, id).None? ==> forall i :: 0 <= i < |rules| ==> rules[i].id != id
  {
    if rules != [] { FoundRule(Init(rules), id); }
  }

  // ---- The same, in terms of the fields ----

  /** The rule watches this subject in this row: one user owns both, and wallet and pool are asked for or left open. */
  predicate Concerns(r: AlertRule, row: HealthRow, k: Subject) {
    && k == Subject(r.id, row.userWalletId, row.poolEntityId)
    && r.userId == row.userId
    && r.userWalletId in {None, Some(row.userWalletId)}
    && r.poolEntityId in {None, Some(row.poolEntityId)}
  }

  ghost function WithMetric(rules: seq<AlertRule>, metric: string): set<AlertRule> {
    set r | r in rules && r.metric == metric
  }

  /** The subject's machine takes one step by the row's value, and its user gets what it emits. */
  ghost predicate PairSteps(r: AlertRule, row: HealthRow, k: Subject, before: States, after: States,
                            ns: seq<Notification>, ns': seq<Notification>, now: int)
  {
    var (next, emit) := Evaluate(r.rule, row.healthFactor, Lookup(before, k), now);
    && Lookup(after, k) == Some(next)
    && About(ns', k) == About(ns, k) +
       if emit.None? then [] else [Notification(row.userId, k, emit.value, row.healthFactor, now)]
  }

  /** Only a rule and a row that concern a subject touch it, every such pair steps it, and only their user is told. */
  ghost predicate ReachesExactly(run: set<AlertRule>, rows: seq<HealthRow>, before: States, after: States,
                                 ns: seq<Notification>, ns': seq<Notification>, now: int)
  {
    && (forall k :: Lookup(after, k) != Lookup(before, k) || About(ns', k) != About(ns, k) ==>
          exists r, row :: r in run && row in rows && Concerns(r, row, k))
    && (forall r, row, k :: r in run && row in rows && Concerns(r, row, k) ==>
          PairSteps(r, row, k, before, after, ns, ns', now))
    && (forall n :: n in ns' ==>
          n in ns || exists r, row :: r in run && row in rows && Concerns(r, row, n.subject)
                                      && n.userId == r.userId == row.userId && n.at == now)
  }

  lemma {:induction false} AboutHolds(ns: seq<Notification>, k: Subject, n: Notification)
    ensures n in About(ns, k) <==> n in ns && n.subject == k
  {
    if ns != [] {
      AboutHolds(Init(ns), k, n);
      assert ns == Init(ns) + [Last(ns)];
    }
  }

  lemma {:induction false} MatchedExactly(r: AlertRule, rows: seq<HealthRow>, row: HealthRow)
    ensures row in Matched(r, rows) <==>
            row in rows && Concerns(r, row, Subject(r.id, row.userWalletId, row.poolEntityId))
  {
    hide InScope, Concerns;
    if rows != [] {
      var init, last := Init(rows), Last(rows);
      MatchedExactly(r, init, row);
      ScopeInFields(r, last);
      assert rows == init + [last];
      assert row in Matched(r, rows) <==> row in Matched(r, init) || (InScope(r, last) && row == last);
    }
  }

  lemma ScopeInFields(r: AlertRule, row: HealthRow)
    ensures InScope(r, row) <==> Concerns(r, row, Subject(r.id, row.userWalletId, row.poolEntityId))
  {
  }

  /** What a sweep observes of a subject is the one pair of a rule and a row that concern it. */
  lemma ObservedExactly(rules: seq<AlertRule>, rows: seq<HealthRow>, k: Subject, r: AlertRule, row: HealthRow)
    requires DistinctIds(rules) && DistinctRows(rows)
    ensures Observed(rules, rows, k) == Some((r, row)) <==> r in rules && row in rows && Concerns(r, row, k)
  {
    hide Matched, FindRow, FindRule, InScope;
    FoundRule(rules, k.ruleId);
    MatchedRows(r, rows);
    MatchedExactly(r, rows, row);
    FoundRow(Matched(r, rows), k);
    if r in rules && r.id == k.ruleId {
      assert FindRule(rules, k.ruleId).value == r by { hide DistinctRows; }
      if row in Matched(r, rows) && k == Subject(r.id, row.userWalletId, row.poolEntityId) {
        OneRowPerKey(Matched(r, rows), FindRow(Matched(r, rows), k).value, row);
      }
    }
  }

  lemma OneRowPerKey(rows: seq<HealthRow>, a: HealthRow, b: HealthRow)
    requires DistinctRows(rows) && a in rows && b in rows
    requires a.userWalletId == b.userWalletId && a.poolEntityId == b.poolEntityId
    ensures a == b
  {
  }

  lemma DoneReaches(rules: seq<AlertRule>, run: set<AlertRule>, rows: seq<HealthRow>, before: States, after: States,
                    ns: seq<Notification>, ns': seq<Notification>, now: int)
    requires DistinctIds(rules) && DistinctRows(rows) && forall r :: r in run <==> r in rules
    requires forall k :: RulesDone(rules, rows, before, after, ns, ns', now, k)
    ensures ReachesExactly(run, rows, before, after, ns, ns', now)
  {
    hide *;
    forall k | Lookup(after, k) != Lookup(before, k) || About(ns', k) != About(ns, k)
      ensures exists r, row :: r in run && row in rows && Concerns(r, row, k)
    {
      TouchedIsObserved(rules, rows, before, after, ns, ns', now, k);
      var (r, row) := Observed(rules, rows, k).value;
      ObservedExactly(rules, rows, k, r, row);
    }
    forall r, row, k | r in run && row in rows && Concerns(r, row, k)
      ensures PairSteps(r, row, k, before, after, ns, ns', now)
    {
      ObservedExactly(rules, rows, k, r, row);
      ObservedSteps(rules, rows, before, after, ns, ns', now, k, r, row);
    }
    forall n | n in ns' && n !in ns
      ensures exists r, row :: r in run && row in rows && Concerns(r, row, n.subject)
                               && n.userId == r.userId == row.userId && n.at == now
    {
      ToldIsObserved(rules, rows, before, after, ns, ns', now, n);
      var (r, row) := Observed(rules, rows, n.subject).value;
      ObservedExactly(rules, rows, n.subject, r, row);
      OneUser(r, row, n.subject);
    }
    ReachesIsThese(run, rows, before, after, ns, ns', now);
  }

  lemma ReachesIsThese(run: set<AlertRule>, rows: seq<HealthRow>, before: States, after: States,
                       ns: seq<Notification>, ns': seq<Notification>, now: int)
    requires forall k :: Lookup(after, k) != Lookup(before, k) || About(ns', k) != About(ns, k) ==>
               exists r, row :: r in run && row in rows && Concerns(r, row, k)
    requires forall r, row, k :: r in run && row in rows && Concerns(r, row, k) ==>
               PairSteps(r, row, k, before, after, ns, ns', now)
    requires forall n :: n in ns' && n !in ns ==>
               exists r, row :: r in run && row in rows && Concerns(r, row, n.subject)
                                && n.userId == r.userId == row.userId && n.at == now
    ensures ReachesExactly(run, rows, before, after, ns, ns', now)
  {
    hide Lookup, About, Concerns, PairSteps;
  }

  lemma ObservedSteps(rules: seq<AlertRule>, rows: seq<HealthRow>, before: States, after: States,
                      ns: seq<Notification>, ns': seq<Notification>, now: int, k: Subject, r: AlertRule, row: HealthRow)
    requires RulesDone(rules, rows, before, after, ns, ns', now, k) && Concerns(r, row, k)
    requires Observed(rules, rows, k) == Some((r, row))
    ensures PairSteps(r, row, k, before, after, ns, ns', now)
  {
    hide Evaluate, Observed, About;
  }

  lemma OneUser(r: AlertRule, row: HealthRow, k: Subject)
    requires Concerns(r, row, k)
    ensures r.userId == row.userId
  {
  }

  lemma TouchedIsObserved(rules: seq<AlertRule>, rows: seq<HealthRow>, before: States, after: States,
                          ns: seq<Notification>, ns': seq<Notification>, now: int, k: Subject)
    requires RulesDone(rules, rows, before, after, ns, ns', now, k)
    requires Lookup(after, k) != Lookup(before, k) || About(ns', k) != About(ns, k)
    ensures Observed(rules, rows, k).Some?
  {
    hide Evaluate, Observed, About;
    assert About(ns, k) + [] == About(ns, k);
  }

  lemma ToldIsObserved(rules: seq<AlertRule>, rows: seq<HealthRow>, before: States, after: States,
                       ns: seq<Notification>, ns': seq<Notification>, now: int, n: Notification)
    requires RulesDone(rules, rows, before, after, ns, ns', now, n.subject) && n in ns' && n !in ns
    ensures Observed(rules, rows, n.subject).Some?
    ensures n.userId == Observed(rules, rows, n.subject).value.0.userId && n.at == now
  {
    hide Evaluate, Observed, About;
    AboutHolds(ns, n.subject, n);
    AboutHolds(ns', n.subject, n);
  }

  lemma OneRuleDone(r: AlertRule, rows: seq<HealthRow>, before: States, after: States, ns: seq<Notification>,
                    ns': seq<Notification>, now: int, k: Subject)
    requires RuleDone(r, Matched(r, rows), before, after, ns, ns', now, k)
    ensures RulesDone([r], rows, before, after, ns, ns', now, k)
  {
    hide Evaluate, Matched, FindRow, About, Notified, Stepped;
    assert Last([r]) == r && Init([r]) == [] && FindRule([], k.ruleId) == None;
    assert FindRule([r], k.ruleId) == if r.id == k.ruleId then Some(r) else None;
  }

  lemma OneRuleReaches(r: AlertRule, rows: seq<HealthRow>, before: States, after: States, ns: seq<Notification>,
                       ns': seq<Notification>, now: int)
    requires DistinctRows(rows)
    requires forall k :: RuleDone(r, Matched(r, rows), before, after, ns, ns', now, k)
    ensures ReachesExactly({r}, rows, before, after, ns, ns', now)
  {
    hide RuleDone, RulesDone, Matched, ReachesExactly, DistinctRows;
    forall k ensures RulesDone([r], rows, before, after, ns, ns', now, k) {
      OneRuleDone(r, rows, before, after, ns, ns', now, k);
    }
    DoneReaches([r], {r}, rows, before, after, ns, ns', now);
  }

  lemma FamilyReaches(rules: seq<AlertRule>, rows: seq<HealthRow>, before: States, after: States,
                      ns: seq<Notification>, ns': seq<Notification>, now: int)
    requires DistinctIds(rules) && DistinctRows(rows)
    requires forall k :: RulesDone(OfFamily(rules, HealthFactor), rows, before, after, ns, ns', now, k)
    ensures ReachesExactly(WithMetric(rules, "health_factor"), rows, before, after, ns, ns', now)
  {
    hide RulesDone, OfFamily, ReachesExactly, DistinctRows, DistinctIds;
    FamilyMembers(rules, HealthFactor);
    FamilyKeepsIdsDistinct(rules, HealthFactor);
    DoneReaches(OfFamily(rules, HealthFactor), WithMetric(rules, "health_factor"), rows, before, after,
                ns, ns', now);
  }

  /** Which metric goes where; anything else is skipped. */
  lemma FamiliesByMetric(rules: seq<AlertRule>, r: AlertRule)
    ensures r in OfFamily(rules, HealthFactor) <==> r in rules && r.metric == "health_factor"
    ensures r in OfFamily(rules, Price) <==> r in rules && r.metric == "price"
    ensures r in OfFamily(rules, TvlDrop) <==> r in rules && r.metric == "tvl_drop_pct"
    ensures r in OfFamily(rules, Apy) <==> r in rules && (r.metric == "supply_apy" || r.metric == "borrow_apy")
    ensures r in OfFamily(rules, Unknown) <==>
            r in rules && r.metric !in {"health_factor", "price", "tvl_drop_pct", "supply_apy", "borrow_apy"}
  {
    hide OfFamily;
    FamilyMembers(rules, HealthFactor);
    FamilyMembers(rules, Price);
    FamilyMembers(rules, TvlDrop);
    FamilyMembers(rules, Apy);
    FamilyMembers(rules, Unknown);
  }

  /** Evaluate always carries a known fire time forward, so the upsert's coalesce never acts. */
  lemma CoalesceIsNeutral(rule: Rule, current: Option<real>, prev: Option<RuleState>, now: int)
    ensures var next := Evaluate(rule, current, prev, now).0;
            next.lastFiredAt.None? ==> prev.None? || prev.value.lastFiredAt.None?
  {
  }

  /** The alerting tables. */
  class AlertStore {
    var states: States
    var notifications: seq<Notification>

    constructor ()
      ensures states == map[] && notifications == []
    {
      states, notifications := map[], [];
    }

    /** upsertRuleState: last_fired_at = coalesce(excluded, existing). */
    method UpsertRuleState(k: Subject, next: RuleState)
      modifies this`states
      ensures var kept :=
                if next.lastFiredAt.None? && k in old(states) then old(states)[k].lastFiredAt else next.lastFiredAt;
              states == old(states)[k := next.(lastFiredAt := kept)]
    {
      var kept := if next.lastFiredAt.None? && k in states then states[k].lastFiredAt else next.lastFiredAt;
      states := states[k := next.(lastFiredAt := kept)];
    }

    /** The inner loop: one rule against its matched rows; the prior states are read once, up front. */
    method RunRule(r: AlertRule, latest: seq<HealthRow>, now: int) returns (fired: nat, resolved: nat)
      requires DistinctRows(latest)
      modifies this
      ensures forall k ::
                RuleDone(r, Matched(r, latest), old(states), states, old(notifications), notifications, now, k)
      ensures ReachesExactly({r}, latest, old(states), states, old(notifications), notifications, now)
      ensures |notifications| == |old(notifications)| + fired + resolved
    {
      var matched := Matched(r, latest);
      var stateMap := states;
      MatchedRows(r, latest);
      fired, resolved := 0, 0;
      for i := 0 to |matched|
        invariant forall k :: RuleDone(r, matched[..i], stateMap, states, old(notifications), notifications, now, k)
        invariant |notifications| == |old(notifications)| + fired + resolved
      {
        var row := matched[i];
        var key := Subject(r.id, row.userWalletId, row.poolEntityId);
        var (next, emit) := Evaluate(r.rule, row.healthFactor, Lookup(stateMap, key), now);
        ghost var states0, ns0 := states, notifications;
        UpsertRuleState(key, next);
        if emit.Some? {
          notifications := notifications + [Notification(r.userId, key, emit.value, row.healthFactor, now)];
          if emit.value == AlertFired { fired := fired + 1; } else { resolved := resolved + 1; }
        }
        ghost var done := matched[..i + 1];
        forall k ensures RuleDone(r, done, stateMap, states, old(notifications), notifications, now, k) {
          RowDone(r, matched, i, stateMap, states0, states, old(notifications), ns0, notifications, now, k);
        }
      }
      assert matched[..|matched|] == matched;
      ghost var states0, ns0 := old(states), old(notifications);
      OneRuleReaches(r, latest, states0, states, ns0, notifications, now);
    }

    /** Family 1 of the sweep: every health-factor rule over the latest rows, with one `now`. */
    method SweepHealthFactor(rules: seq<AlertRule>, latest: seq<HealthRow>, now: int)
      returns (fired: nat, resolved: nat)
      requires DistinctIds(rules) && DistinctRows(latest)
      modifies this
      ensures forall k :: RulesDone(OfFamily(rules, HealthFactor), latest, old(states), states,
                                    old(notifications), notifications, now, k)
      ensures ReachesExactly(WithMetric(rules, "health_factor"), latest, old(states), states,
                             old(notifications), notifications, now)
      ensures |notifications| == |old(notifications)| + fired + resolved
    {
      var families := PartitionRulesByFamily(rules);
      var mine := families.healthFactor;
      FamilyKeepsIdsDistinct(rules, HealthFactor);
      fired, resolved := 0, 0;
      for i := 0 to |mine|
        invariant forall k ::
                    RulesDone(mine[..i], latest, old(states), states, old(notifications), notifications, now, k)
        invariant |notifications| == |old(notifications)| + fired + resolved
      {
        ghost var states0, ns0 := states, notifications;
        var f, r := RunRule(mine[i], latest, now);
        fired, resolved := fired + f, resolved + r;
        ghost var done := mine[..i + 1];
        forall k ensures RulesDone(done, latest, old(states), states, old(notifications), notifications, now, k) {
          RuleThenDone(mine, i, latest, old(states), states0, states, old(notifications), ns0, notifications, now, k);
        }
      }
      assert mine[..|mine|] == mine;
      FamilyReaches(rules, latest, old(states), states, old(notifications), notifications, now);
    }
  }

  lemma RowDone(r: AlertRule, matched: seq<HealthRow>, i: nat, before: States, states0: States, states1: States,
                ns: seq<Notification>, ns0: seq<Notification>, ns1: seq<Notification>, now: int, k: Subject)
    requires i < |matched| && DistinctRows(matched)
    requires RuleDone(r, matched[..i], before, states0, ns, ns0, now, k)
    requires var row := matched[i];
             var key := Subject(r.id, row.userWalletId, row.poolEntityId);
             var (next, emit) := Evaluate(r.rule, row.healthFactor, Lookup(before, key), now);
             var kept :=
               if next.lastFiredAt.None? && key in states0 then states0[key].lastFiredAt else next.lastFiredAt;
             && states1 == states0[key := next.(lastFiredAt := kept)]
             && ns1 == if emit.Some? then ns0 + [Notification(r.userId, key, emit.value, row.healthFactor, now)]
               else ns0
    ensures RuleDone(r, matched[..i + 1], before, states1, ns, ns1, now, k)
  {
    hide Evaluate, About, FindRow, DistinctRows;
    var row := matched[i];
    var key := Subject(r.id, row.userWalletId, row.poolEntityId);
    RowAdded(matched, i, k);
    var (next, emit) := Evaluate(r.rule, row.healthFactor, Lookup(before, key), now);
    CoalesceIsNeutral(r.rule, row.healthFactor, Lookup(before, key), now);
    if emit.Some? {
      AboutAppended(ns0, Notification(r.userId, key, emit.value, row.healthFactor, now), k);
    }
  }

  lemma RowAdded(rows: seq<HealthRow>, i: nat, k: Subject)
    requires i < |rows| && DistinctRows(rows)
    ensures var hit := rows[i].userWalletId == k.userWalletId && rows[i].poolEntityId == k.poolEntityId;
            && FindRow(rows[..i + 1], k) == (if hit then Some(rows[i]) else FindRow(rows[..i], k))
            && (hit ==> FindRow(rows[..i], k).None?)
  {
    assert Init(rows[..i + 1]) == rows[..i] && Last(rows[..i + 1]) == rows[i];
    FoundRow(rows[..i], k);
  }

  lemma RuleThenDone(rules: seq<AlertRule>, i: nat, rows: seq<HealthRow>, before: States, states0: States,
                     states1: States, ns: seq<Notification>, ns0: seq<Notification>, ns1: seq<Notification>,
                     now: int, k: Subject)
    requires i < |rules| && DistinctIds(rules)
    requires RulesDone(rules[..i], rows, before, states0, ns, ns0, now, k)
    requires RuleDone(rules[i], Matched(rules[i], rows), states0, states1, ns0, ns1, now, k)
    ensures RulesDone(rules[..i + 1], rows, before, states1, ns, ns1, now, k)
  {
    hide Evaluate, Matched, FindRow, DistinctIds, About, Notified, Stepped;
    RuleAdded(rules, i, k.ruleId);
    if k.ruleId != rules[i].id {
      NothingStepped(Lookup(states0, k), k, now);
    } else {
      NothingStepped(Lookup(before, k), k, now);
    }
  }

  lemma NothingStepped(prev: Option<RuleState>, k: Subject, now: int)
    ensures Stepped(None, prev, now) == prev && Notified(None, k, prev, now) == []
  {
  }

  lemma RuleAdded(rules: seq<AlertRule>, i: nat, id: string)
    requires i < |rules| && DistinctIds(rules)
    ensures FindRule(rules[..i + 1], id) == if rules[i].id == id then Some(rules[i]) else FindRule(rules[..i], id)
    ensures rules[i].id == id ==> FindRule(rules[..i], id).None?
  {
    assert Init(rules[..i + 1]) == rules[..i] && Last(rules[..i + 1]) == rules[i];
    FoundRule(rules[..i], id);
  }

  // ---- Many sweeps ----

  datatype Sweep = Sweep(rows: seq<HealthRow>, now: int)

  /** The observations that a run of sweeps makes of one subject. */
  function ObservationsOf(rules: seq<AlertRule>, sweeps: seq<Sweep>, k: Subject): seq<Observation> {
    if sweeps == [] then []
    else
      var o := Observed(rules, Last(sweeps).rows, k);
      ObservationsOf(rules, Init(sweeps), k) +
      if o.None? then [] else [Observation(o.value.1.healthFactor, Last(sweeps).now)]
  }

  /** Tables after each sweep, each step being what SweepHealthFactor ensures. */
  ghost predicate IsSweepHistory(rules: seq<AlertRule>, sweeps: seq<Sweep>, states: seq<States>,
                                 ns: seq<seq<Notification>>) {
    && |states| == |ns| == |sweeps| + 1
    && forall i, j :: 0 <= i && j == i + 1 && j < |states| ==>
      SweepDone(rules, sweeps[i], states[i], states[j], ns[i], ns[j])
  }

  ghost predicate SweepDone(rules: seq<AlertRule>, sweep: Sweep, before: States, after: States,
                            ns: seq<Notification>, ns': seq<Notification>)
  {
    forall k :: RulesDone(rules, sweep.rows, before, after, ns, ns', sweep.now, k)
  }

  function KindsAndTimes(ns: seq<Notification>): seq<Emitted> {
    seq(|ns|, i requires 0 <= i < |ns| => Emitted(ns[i].kind, ns[i].at))
  }

  /**
   Refinement: after any number of sweeps, a subject's state is the fold of `Evaluate` over its own
   observations, and its new notifications are exactly that fold's emissions. A subject that no
   rule matched is untouched.
   */
  lemma {:induction false} SweepsRefineOneMachinePerSubject(rules: seq<AlertRule>, sweeps: seq<Sweep>,
                                                            states: seq<States>, ns: seq<seq<Notification>>,
                                                            k: Subject, r: AlertRule)
    requires IsSweepHistory(rules, sweeps, states, ns) && FindRule(rules, k.ruleId) == Some(r)
    ensures var trace := ObservationsOf(rules, sweeps, k);
            && Lookup(states[|sweeps|], k) == After(r.rule, Lookup(states[0], k), trace)
            && KindsAndTimes(About(ns[|sweeps|], k)) ==
               KindsAndTimes(About(ns[0], k)) + Emissions(r.rule, Lookup(states[0], k), trace)
            && (trace == [] ==> Lookup(states[|sweeps|], k) == Lookup(states[0], k))
  {
    hide Evaluate, FindRow, Matched, FindRule, About, RulesDone;
    if sweeps != [] {
      var n := |sweeps| - 1;
      var init := Init(sweeps);
      assert SweepDone(rules, sweeps[n], states[n], states[n + 1], ns[n], ns[n + 1]);
      SweepsRefineOneMachinePerSubject(rules, init, states[..n + 1], ns[..n + 1], k, r);
      assert RulesDone(rules, sweeps[n].rows, states[n], states[n + 1], ns[n], ns[n + 1], sweeps[n].now, k);
      OneSweepExtends(rules, sweeps[n], ObservationsOf(rules, init, k), Lookup(states[0], k), states[n],
        states[n + 1], ns[n], ns[n + 1], k, r,
                      KindsAndTimes(About(ns[0], k)));
    }
  }

  lemma OneSweepExtends(rules: seq<AlertRule>, sweep: Sweep, trace: seq<Observation>, prior: Option<RuleState>,
                        states0: States, states1: States, ns0: seq<Notification>, ns1: seq<Notification>, k: Subject,
                        r: AlertRule, first: seq<Emitted>)
    requires FindRule(rules, k.ruleId) == Some(r)
    requires Lookup(states0, k) == After(r.rule, prior, trace)
    requires KindsAndTimes(About(ns0, k)) == first + Emissions(r.rule, prior, trace)
    requires RulesDone(rules, sweep.rows, states0, states1, ns0, ns1, sweep.now, k)
    ensures var o := Observed(rules, sweep.rows, k);
            var longer := trace + if o.None? then [] else [Observation(o.value.1.healthFactor, sweep.now)];
            && Lookup(states1, k) == After(r.rule, prior, longer)
            && KindsAndTimes(About(ns1, k)) == first + Emissions(r.rule, prior, longer)
  {
    hide Evaluate, FindRow, Matched, FindRule, About;
    var o := Observed(rules, sweep.rows, k);
    if o.None? {
      assert trace + [] == trace;
    } else {
      var ob := Observation(o.value.1.healthFactor, sweep.now);
      assert Init(trace + [ob]) == trace;
      var more := Notified(o, k, Lookup(states0, k), sweep.now);
      assert KindsAndTimes(About(ns0, k) + more) == KindsAndTimes(About(ns0, k)) + KindsAndTimes(more);
      assert KindsAndTimes(more) == EmittedBy(r.rule, ob, After(r.rule, prior, trace));
    }
  }
}

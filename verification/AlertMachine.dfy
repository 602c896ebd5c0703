/**
 The alert rule evaluator: an edge-triggered state machine with a cooldown and a recovery margin.
 Values are reals and times are epoch milliseconds.
 */
module AlertMachine {
  import opened Wrappers

  datatype Operator = Lt | Lte | Gt | Gte

  datatype Rule = Rule(operator: Operator, threshold: Option<real>, rearmHysteresis: Option<real>, cooldownSeconds: int)

  datatype Status = Ok | Breached

  datatype RuleState = RuleState(status: Status, lastValue: Option<real>, lastEvaluatedAt: int,
                                 lastFiredAt: Option<int>)

  datatype Emission = AlertFired | AlertResolved

  /** A missing threshold becomes NaN, and every comparison with NaN is false. */
  predicate Compare(v: real, op: Operator, threshold: Option<real>) {
    threshold.Some? &&
    match op
    case Lt => v < threshold.value
    case Lte => v <= threshold.value
    case Gt => v > threshold.value
    case Gte => v >= threshold.value
  }

  function Margin(rule: Rule): real {
    if rule.rearmHysteresis.Some? then rule.rearmHysteresis.value else 0.0
  }

  predicate IsRecovered(v: real, op: Operator, threshold: Option<real>, margin: real) {
    threshold.Some? &&
    if op == Lt || op == Lte then v >= threshold.value + margin else v <= threshold.value - margin
  }

  function Evaluate(rule: Rule, current: Option<real>, prev: Option<RuleState>,
                    now: int): (RuleState, Option<Emission>) {
    var carried := if prev.Some? then prev.value.lastFiredAt else None;
    var wasBreached := prev.Some? && prev.value.status == Breached;
    if current.None? then
      (RuleState(Ok, current, now, carried), if wasBreached then Some(AlertResolved) else None)
    else if Compare(current.value, rule.operator, rule.threshold) then
      if !wasBreached then (RuleState(Breached, current, now, Some(now)), Some(AlertFired))
      else
        var elapsed := carried.None? || now - carried.value >= rule.cooldownSeconds * 1000;
        if elapsed then (RuleState(Breached, current, now, Some(now)), Some(AlertFired))
        else (RuleState(Breached, current, now, carried), None)
    else if wasBreached then
      if IsRecovered(current.value, rule.operator, rule.threshold, Margin(rule)) then
        (RuleState(Ok, current, now, carried), Some(AlertResolved))
      else (RuleState(Breached, current, now, carried), None)
    else (RuleState(Ok, current, now, carried), None)
  }

  // ---- Traces ----

  datatype Observation = Observation(value: Option<real>, at: int)

  datatype Emitted = Emitted(kind: Emission, at: int)

  function Last<T>(s: seq<T>): T
    requires s != []
  {
    s[|s| - 1]
  }

  function Init<T>(s: seq<T>): seq<T>
    requires s != []
  {
    s[..|s| - 1]
  }

  /** The persisted state after a trace of observations. */
  function After(rule: Rule, prior: Option<RuleState>, trace: seq<Observation>): Option<RuleState> {
    if trace == [] then prior
    else Some(Evaluate(rule, Last(trace).value, After(rule, prior, Init(trace)), Last(trace).at).0)
  }

  function EmittedBy(rule: Rule, o: Observation, prev: Option<RuleState>): seq<Emitted> {
    var e := Evaluate(rule, o.value, prev, o.at).1;
    if e.Some? then [Emitted(e.value, o.at)] else []
  }

  /** What a trace emits, in order. */
  function Emissions(rule: Rule, prior: Option<RuleState>, trace: seq<Observation>): seq<Emitted> {
    if trace == [] then []
    else Emissions(rule, prior, Init(trace)) + EmittedBy(rule, Last(trace), After(rule, prior, Init(trace)))
  }

  // ---- Emission discipline and cooldown ----

  function LastFire(es: seq<Emitted>): Option<int> {
    if es == [] then None
    else if Last(es).kind == AlertFired then Some(Last(es).at)
    else LastFire(Init(es))
  }

  /** Adjacent emissions: never two resolves, and two fires are a cooldown apart. */
  ghost predicate Follows(rule: Rule, a: Emitted, b: Emitted) {
    && (a.kind == AlertFired || b.kind == AlertFired)
    && (a.kind == AlertFired && b.kind == AlertFired ==> b.at - a.at >= rule.cooldownSeconds * 1000)
  }

  ghost predicate Disciplined(rule: Rule, es: seq<Emitted>) {
    && (es != [] ==> es[0].kind == AlertFired)
    && (forall i, j :: 0 <= i && j == i + 1 && j < |es| ==> Follows(rule, es[i], es[j]))
  }

  /** The state remembers exactly what was emitted last. */
  ghost predicate Remembers(state: Option<RuleState>, es: seq<Emitted>) {
    && ((state.Some? && state.value.status == Breached) <==> (es != [] && Last(es).kind == AlertFired))
    && LastFire(es) == (if state.Some? then state.value.lastFiredAt else None)
  }

  lemma OneEmissionKeepsDiscipline(rule: Rule, o: Observation, state: Option<RuleState>, es: seq<Emitted>)
    requires Disciplined(rule, es) && Remembers(state, es)
    ensures Disciplined(rule, es + EmittedBy(rule, o, state))
    ensures Remembers(Some(Evaluate(rule, o.value, state, o.at).0), es + EmittedBy(rule, o, state))
  {
    var more := EmittedBy(rule, o, state);
    if more == [] {
      assert es + more == es;
    } else {
      assert more == [more[0]] && Init(es + more) == es;
      if es != [] && Last(es).kind == AlertFired {
        assert LastFire(es) == Some(Last(es).at);
      }
    }
  }

  /**
   From no prior state: the first emission is a fire, two resolves never meet without a fire between
   them, the status is breached exactly when the last emission was a fire, and `lastFiredAt` is the
   time of the latest fire.
   */
  lemma {:induction false} EmissionDiscipline(rule: Rule, trace: seq<Observation>)
    ensures Disciplined(rule, Emissions(rule, None, trace))
    ensures Remembers(After(rule, None, trace), Emissions(rule, None, trace))
  {
    hide Disciplined, Remembers, Evaluate, EmittedBy;
    if trace == [] {
      StartsDisciplined(rule);
    } else {
      EmissionDiscipline(rule, Init(trace));
      OneEmissionKeepsDiscipline(rule, Last(trace), After(rule, None, Init(trace)), Emissions(rule, None, Init(trace)));
    }
  }

  lemma StartsDisciplined(rule: Rule)
    ensures Disciplined(rule, []) && Remembers(None, [])
  {
  }

  lemma ResolvesAreSeparated(rule: Rule, trace: seq<Observation>, i: nat, j: nat)
    requires var es := Emissions(rule, None, trace); i < j < |es| && es[i].kind == es[j].kind == AlertResolved
    ensures exists k :: i < k < j && Emissions(rule, None, trace)[k].kind == AlertFired
  {
    EmissionDiscipline(rule, trace);
    var es := Emissions(rule, None, trace);
    assert Follows(rule, es[i], es[i + 1]);
  }

  predicate Breaches(rule: Rule, o: Observation) {
    o.value.Some? && Compare(o.value.value, rule.operator, rule.threshold)
  }

  /** What ends a breach: no value, or a value that does not breach and has recovered past the margin. */
  predicate Clears(rule: Rule, o: Observation) {
    o.value.None? || (!Breaches(rule, o) && IsRecovered(o.value.value, rule.operator, rule.threshold, Margin(rule)))
  }

  /** Observation `i` breached and nothing has cleared it since. */
  ghost predicate BreachedSince(rule: Rule, trace: seq<Observation>, i: nat) {
    && i < |trace| && Breaches(rule, trace[i])
    && forall j :: i < j < |trace| ==> !Clears(rule, trace[j])
  }

  /** The status is not bookkeeping: it is breached exactly when some breach has not been cleared since. */
  lemma {:induction false} StatusIsAnUnclearedBreach(rule: Rule, trace: seq<Observation>)
    ensures var state := After(rule, None, trace);
            (state.Some? && state.value.status == Breached) <==> exists i :: BreachedSince(rule, trace, i)
  {
    if trace != [] {
      var n := |trace| - 1;
      var init := Init(trace);
      StatusIsAnUnclearedBreach(rule, init);
      NextStatus(rule, Last(trace), After(rule, None, init));
      hide Evaluate, Breaches, Clears;
      if Breaches(rule, trace[n]) {
        assert BreachedSince(rule, trace, n);
      }
      forall i: nat | i < n
        ensures BreachedSince(rule, trace, i) <==> BreachedSince(rule, init, i) && !Clears(rule, trace[n])
      {
        OneMoreObservation(rule, trace, i);
      }
    }
  }

  lemma OneMoreObservation(rule: Rule, trace: seq<Observation>, i: nat)
    requires i < |trace| - 1
    ensures BreachedSince(rule, trace, i) <==> BreachedSince(rule, Init(trace), i) && !Clears(rule, Last(trace))
  {
    hide Breaches, Clears;
    var init := Init(trace);
    if BreachedSince(rule, trace, i) {
      assert forall j :: i < j < |init| ==> init[j] == trace[j];
    }
    if BreachedSince(rule, init, i) && !Clears(rule, Last(trace)) {
      forall j | i < j < |trace| ensures !Clears(rule, trace[j]) {
        if j < |init| { assert init[j] == trace[j]; }
      }
    }
  }

  lemma NextStatus(rule: Rule, o: Observation, state: Option<RuleState>)
    ensures Evaluate(rule, o.value, state, o.at).0.status == Breached <==>
            Breaches(rule, o) || (state.Some? && state.value.status == Breached && !Clears(rule, o))
    ensures Breaches(rule, o) ==> !Clears(rule, o)
  {
  }

  ghost predicate AllFires(es: seq<Emitted>, i: nat, j: nat) {
    j < |es| && forall k :: i <= k <= j ==> es[k].kind == AlertFired
  }

  /** Fires `i` to `j` with no resolve between them are spaced by the cooldown, one by one. */
  lemma {:induction false} EpisodeIsSpaced(rule: Rule, es: seq<Emitted>, i: nat, j: nat)
    requires Disciplined(rule, es) && i <= j && AllFires(es, i, j)
    ensures es[j].at - es[i].at >= (j - i) * (rule.cooldownSeconds * 1000)
    decreases j
  {
    if i < j {
      EpisodeIsSpaced(rule, es, i, j - 1);
      assert Follows(rule, es[j - 1], es[j]);
      var c := rule.cooldownSeconds * 1000;
      assert (j - i) * c == (j - 1 - i) * c + c;
    }
  }

  /** An episode whose first and last fires are T ms apart has at most 1 + ⌊T / cooldown⌋ fires. */
  lemma EpisodeIsBounded(rule: Rule, trace: seq<Observation>, i: nat, j: nat)
    requires var es := Emissions(rule, None, trace); i <= j && AllFires(es, i, j)
    requires rule.cooldownSeconds > 0
    ensures var es := Emissions(rule, None, trace);
            j - i + 1 <= 1 + (es[j].at - es[i].at) / (1000 * rule.cooldownSeconds)
  {
    hide Disciplined, Emissions;
    var es := Emissions(rule, None, trace);
    EmissionDiscipline(rule, trace);
    EpisodeIsSpaced(rule, es, i, j);
    QuotientAtLeast(es[j].at - es[i].at, j - i, 1000 * rule.cooldownSeconds);
  }

  lemma QuotientAtLeast(t: int, n: nat, c: int)
    requires c > 0 && t >= n * c
    ensures n <= t / c
  {
    var q := t / c;
    assert t < (q + 1) * c;
    ProductOrder(n, q + 1, c);
  }

  lemma ProductOrder(a: int, b: int, c: int)
    requires c > 0
    ensures a >= b ==> a * c >= b * c
  {
  }

  // ---- Flapping ----

  function Abs(x: real): real { if x < 0.0 then -x else x }

  /** Total variation of the observed values of a null-free trace. */
  function Variation(trace: seq<Observation>): real
    requires NullFree(trace)
  {
    if |trace| < 2 then 0.0
    else Variation(Init(trace)) + Abs(Last(trace).value.value - Last(Init(trace)).value.value)
  }

  predicate NullFree(trace: seq<Observation>) {
    forall i :: 0 <= i < |trace| ==> trace[i].value.Some?
  }

  function Resolves(es: seq<Emitted>): nat {
    if es == [] then 0 else Resolves(Init(es)) + if Last(es).kind == AlertResolved then 1 else 0
  }

  /** How far a value lies on the good side of the threshold. */
  function Clearance(rule: Rule, v: real): real
    requires rule.threshold.Some?
  {
    if rule.operator == Lt || rule.operator == Lte then v - rule.threshold.value else rule.threshold.value - v
  }

  function Max0(x: real): real { if x < 0.0 then 0.0 else x }

  /** 2k - 1 recovery margins: k ways out through the margin and the k - 1 ways back between them. */
  function FlapCost(rule: Rule, k: nat): real {
    (2 * k - 1) as real * Margin(rule)
  }

  lemma FlapCostGrows(rule: Rule, k: nat)
    ensures FlapCost(rule, 0) == -Margin(rule)
    ensures FlapCost(rule, k + 1) == FlapCost(rule, k) + Margin(rule) + Margin(rule)
    ensures k > 0 && Margin(rule) < 0.0 ==> FlapCost(rule, k) <= 0.0
  {
    var c, m := (2 * k - 1) as real, Margin(rule);
    assert (2 * (k + 1) - 1) as real == c + 1.0 + 1.0;
    assert (c + 1.0 + 1.0) * m == c * m + m + m;
    assert k > 0 ==> c >= 0.0;
  }

  /** What the variation so far must have paid for: each flap crosses the margin twice. */
  ghost predicate FlapsPaid(rule: Rule, tv: real, k: nat, breached: bool, v: real)
    requires rule.threshold.Some?
  {
    var m, x := Margin(rule), Clearance(rule, v);
    if breached then tv >= FlapCost(rule, k) + m + Max0(x)
    else k > 0 ==> tv >= FlapCost(rule, k) + Max0(m - x)
  }

  lemma MovingPays(rule: Rule, tv: real, k: nat, breached: bool, v: real, w: real)
    requires rule.threshold.Some? && FlapsPaid(rule, tv, k, breached, v)
    ensures FlapsPaid(rule, tv + Abs(w - v), k, breached, w)
  {
    hide FlapCost;
  }

  lemma StepPays(rule: Rule, o: Observation, state: Option<RuleState>, tv: real, k: nat)
    requires rule.threshold.Some? && o.value.Some?
    requires FlapsPaid(rule, tv, k, state.Some? && state.value.status == Breached, o.value.value)
    requires state.None? ==> k == 0
    requires tv >= 0.0
    ensures var (next, e) := Evaluate(rule, o.value, state, o.at);
            FlapsPaid(rule, tv, k + (if e == Some(AlertResolved) then 1 else 0), next.status == Breached, o.value.value)
  {
    hide FlapCost;
    FlapCostGrows(rule, k);
  }

  lemma OneMoreResolve(es: seq<Emitted>, rule: Rule, o: Observation, state: Option<RuleState>)
    ensures Resolves(es + EmittedBy(rule, o, state))
         == Resolves(es) + if Evaluate(rule, o.value, state, o.at).1 == Some(AlertResolved) then 1 else 0
  {
    var more := EmittedBy(rule, o, state);
    if more == [] {
      assert es + more == es;
    } else {
      assert Init(es + more) == es;
    }
  }

  lemma {:induction false} VariationIsPaid(rule: Rule, trace: seq<Observation>)
    requires NullFree(trace) && rule.threshold.Some? && trace != []
    ensures Variation(trace) >= 0.0
    ensures FlapsPaid(rule, Variation(trace), Resolves(Emissions(rule, None, trace)),
                      After(rule, None, trace).value.status == Breached, Last(trace).value.value)
  {
    hide Evaluate, FlapsPaid, EmittedBy;
    var init := Init(trace);
    var state := After(rule, None, init);
    OneMoreResolve(Emissions(rule, None, init), rule, Last(trace), state);
    if init == [] {
      NothingPaidYet(rule, Last(trace).value.value);
      StepPays(rule, Last(trace), state, 0.0, 0);
    } else {
      VariationIsPaid(rule, init);
      var k := Resolves(Emissions(rule, None, init));
      MovingPays(rule, Variation(init), k, state.value.status == Breached, Last(init).value.value,
                 Last(trace).value.value);
      StepPays(rule, Last(trace), state, Variation(trace), k);
    }
  }

  lemma NothingPaidYet(rule: Rule, v: real)
    requires rule.threshold.Some?
    ensures FlapsPaid(rule, 0.0, 0, false, v)
  {
  }

  lemma {:induction false} NoThresholdNoFire(rule: Rule, trace: seq<Observation>)
    requires rule.threshold.None?
    ensures Emissions(rule, None, trace) == []
    ensures After(rule, None, trace).Some? ==> After(rule, None, trace).value.status == Ok
  {
    if trace != [] {
      NoThresholdNoFire(rule, Init(trace));
    }
  }

  lemma PaidIsTheBound(rule: Rule, tv: real, k: nat, breached: bool, v: real)
    requires rule.threshold.Some? && FlapsPaid(rule, tv, k, breached, v) && tv >= 0.0
    ensures k > 0 ==> tv >= FlapCost(rule, k)
  {
    hide FlapCost;
    FlapCostGrows(rule, k);
  }

  /**
   The anti-flap bound, for all four operators: on a null-free trace, k resolve emissions force the
   observed values to travel at least (2k - 1) recovery margins.
   */
  lemma FlapBound(rule: Rule, trace: seq<Observation>)
    requires NullFree(trace)
    ensures var k := Resolves(Emissions(rule, None, trace));
            k > 0 ==> Variation(trace) >= FlapCost(rule, k)
  {
    if trace == [] || rule.threshold.None? {
      NothingResolved(rule, trace);
    } else {
      VariationIsPaid(rule, trace);
      hide *;
      PaidIsTheBound(rule, Variation(trace), Resolves(Emissions(rule, None, trace)),
                     After(rule, None, trace).value.status == Breached, Last(trace).value.value);
    }
  }

  lemma NothingResolved(rule: Rule, trace: seq<Observation>)
    requires trace == [] || rule.threshold.None?
    ensures Resolves(Emissions(rule, None, trace)) == 0
  {
    hide Evaluate;
    if rule.threshold.None? {
      NoThresholdNoFire(rule, trace);
    }
  }
}

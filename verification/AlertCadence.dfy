/**
 When exactly the alert machine speaks. The emissions of every trace are told in terms of the observed
 values, the rule's fields and the emissions before, and a breach that lasts is announced again every
 cooldown.
 */
module AlertCadence {
  import opened Wrappers
  import opened AlertMachine

  /** The value lies on the wrong side of the threshold; without one, none does. */
  predicate IsBad(rule: Rule, v: real) {
    rule.threshold.Some? &&
    var t := rule.threshold.value;
    (rule.operator == Lt && v < t) || (rule.operator == Lte && !(v > t))
    || (rule.operator == Gt && v > t) || (rule.operator == Gte && !(v < t))
  }

  /** The value lies on the right side of the threshold, at least the recovery margin away from it. */
  predicate IsGood(rule: Rule, v: real) {
    rule.threshold.Some? &&
    var m := if rule.rearmHysteresis == None then 0.0 else rule.rearmHysteresis.value;
    var gain := if rule.operator in {Lt, Lte} then v - rule.threshold.value else rule.threshold.value - v;
    gain >= m
  }

  /** The last observation emits this one thing. */
  ghost predicate Emits(rule: Rule, prior: Option<RuleState>, trace: seq<Observation>, kind: Emission)
    requires trace != []
  {
    Emissions(rule, prior, trace) == Emissions(rule, prior, Init(trace)) + [Emitted(kind, Last(trace).at)]
  }

  lemma SilentOrOne(rule: Rule, prior: Option<RuleState>, trace: seq<Observation>, kind: Emission)
    requires trace != []
    ensures Emits(rule, prior, trace, kind) <==>
            Evaluate(rule, Last(trace).value, After(rule, prior, Init(trace)), Last(trace).at).1 == Some(kind)
  {
    hide Evaluate;
    var e := Evaluate(rule, Last(trace).value, After(rule, prior, Init(trace)), Last(trace).at).1;
    var es := Emissions(rule, prior, Init(trace));
    if e.Some? {
      assert (es + [Emitted(e.value, Last(trace).at)])[|es|] == Emitted(e.value, Last(trace).at);
      assert (es + [Emitted(kind, Last(trace).at)])[|es|] == Emitted(kind, Last(trace).at);
    } else {
      assert |es + []| != |es + [Emitted(kind, Last(trace).at)]|;
    }
  }

  /** One step from any persisted state, in terms of what it reads. */
  lemma StepSpeaksExactly(rule: Rule, o: Observation, prev: Option<RuleState>)
    ensures var e := Evaluate(rule, o.value, prev, o.at).1;
            var breached := prev.Some? && prev.value.status == Breached;
            && (e == Some(AlertFired) <==>
                  && o.value.Some? && IsBad(rule, o.value.value)
                  && (!breached || prev.value.lastFiredAt.None?
                      || o.at - prev.value.lastFiredAt.value >= 1000 * rule.cooldownSeconds))
            && (e == Some(AlertResolved) <==>
                  breached && (o.value.Some? ==> !IsBad(rule, o.value.value) && IsGood(rule, o.value.value)))
  {
  }

  /**
   Every trace from no prior state, exactly. An observation is announced if and only if its value is bad
   and either the last emission is no fire or the last fire is a cooldown ago. It is answered by a resolve
   if and only if the last emission is a fire and the value is missing, or good by the margin and not bad.
   */
  lemma SpeaksExactly(rule: Rule, trace: seq<Observation>)
    requires trace != []
    ensures var es, o := Emissions(rule, None, Init(trace)), Last(trace);
            var pending := es != [] && Last(es).kind == AlertFired;
            && (Emits(rule, None, trace, AlertFired) <==>
                  && o.value.Some? && IsBad(rule, o.value.value)
                  && (!pending || o.at - Last(es).at >= 1000 * rule.cooldownSeconds))
            && (Emits(rule, None, trace, AlertResolved) <==>
                  pending && (o.value.Some? ==> !IsBad(rule, o.value.value) && IsGood(rule, o.value.value)))
  {
    hide Evaluate, IsBad, IsGood, Emissions, Emits;
    EmissionDiscipline(rule, Init(trace));
    SilentOrOne(rule, None, trace, AlertFired);
    SilentOrOne(rule, None, trace, AlertResolved);
    StepSpeaksExactly(rule, Last(trace), After(rule, None, Init(trace)));
    FireIsLast(Emissions(rule, None, Init(trace)));
  }

  lemma FireIsLast(es: seq<Emitted>)
    ensures es != [] && Last(es).kind == AlertFired ==> LastFire(es) == Some(Last(es).at)
  {
  }

  /** Observation `i` is bad, and every later one has a value that is bad or not yet good. */
  ghost predicate BadSince(rule: Rule, trace: seq<Observation>, i: nat) {
    && i < |trace| && trace[i].value.Some? && IsBad(rule, trace[i].value.value)
    && forall j :: i < j < |trace| ==>
         trace[j].value.Some? && (IsBad(rule, trace[j].value.value) || !IsGood(rule, trace[j].value.value))
  }

  /** What is persisted: the last value and its time, and a breach exactly while a bad value is not made good. */
  lemma PersistsExactly(rule: Rule, trace: seq<Observation>)
    requires trace != []
    ensures var state := After(rule, None, trace);
            && state.Some?
            && state.value.lastValue == Last(trace).value && state.value.lastEvaluatedAt == Last(trace).at
            && state.value.lastFiredAt == LastFire(Emissions(rule, None, trace))
            && (state.value.status == Breached <==> exists i :: BadSince(rule, trace, i))
  {
    StatusIsAnUnclearedBreach(rule, trace);
    EmissionDiscipline(rule, trace);
    hide Emissions, LastFire;
    forall i: nat ensures BadSince(rule, trace, i) <==> BreachedSince(rule, trace, i) {
      hide After;
    }
  }

  // ---- A breach that lasts ----

  ghost predicate InOrder(trace: seq<Observation>) {
    forall i, j :: 0 <= i < j < |trace| ==> trace[i].at <= trace[j].at
  }

  /** Observation `n` of the trace is announced. */
  ghost predicate FiresAt(rule: Rule, prior: Option<RuleState>, trace: seq<Observation>, n: nat)
    requires n < |trace|
  {
    Emits(rule, prior, trace[..n + 1], AlertFired)
  }

  /** The persisted fire time, if any, is no later than any observation still to come. */
  ghost predicate FiredBefore(state: Option<RuleState>, at: int) {
    state.Some? && state.value.lastFiredAt.Some? ==> state.value.lastFiredAt.value <= at
  }

  lemma {:induction false} FiredInThePast(rule: Rule, prior: Option<RuleState>, trace: seq<Observation>, n: nat)
    requires InOrder(trace) && n < |trace| && FiredBefore(prior, trace[0].at)
    ensures FiredBefore(After(rule, prior, trace[..n]), trace[n].at)
    decreases n
  {
    if n > 0 {
      FiredInThePast(rule, prior, trace, n - 1);
      assert Init(trace[..n]) == trace[..n - 1];
    }
  }

  /** While nothing fires in a breach, the status stays breached and the fire time stays what it was. */
  lemma {:induction false} StillWaiting(rule: Rule, prior: Option<RuleState>, trace: seq<Observation>, i: nat, j: nat)
    requires i < j < |trace|
    requires forall n :: i <= n <= j ==> trace[n].value.Some? && IsBad(rule, trace[n].value.value)
    requires forall n :: i <= n <= j ==> !FiresAt(rule, prior, trace, n)
    ensures var before, now := After(rule, prior, trace[..i]), After(rule, prior, trace[..j]);
            && before.Some? && before.value.status == Breached && before.value.lastFiredAt.Some?
            && now.Some? && now.value.status == Breached && now.value.lastFiredAt == before.value.lastFiredAt
    decreases j
  {
    hide IsBad, Evaluate, FiresAt;
    if i + 1 < j {
      StillWaiting(rule, prior, trace, i, j - 1);
    }
    OneMoreWait(rule, prior, trace, j - 1);
  }

  lemma OneMoreWait(rule: Rule, prior: Option<RuleState>, trace: seq<Observation>, n: nat)
    requires n < |trace| && trace[n].value.Some? && IsBad(rule, trace[n].value.value) && !FiresAt(rule, prior, trace, n)
    ensures var before, now := After(rule, prior, trace[..n]), After(rule, prior, trace[..n + 1]);
            && before.Some? && before.value.status == Breached && before.value.lastFiredAt.Some?
            && trace[n].at - before.value.lastFiredAt.value < 1000 * rule.cooldownSeconds
            && now.Some? && now.value.status == Breached && now.value.lastFiredAt == before.value.lastFiredAt
  {
    hide Emissions, Emits;
    assert Init(trace[..n + 1]) == trace[..n] && Last(trace[..n + 1]) == trace[n];
    SilentOrOne(rule, prior, trace[..n + 1], AlertFired);
    StepSpeaksExactly(rule, trace[n], After(rule, prior, trace[..n]));
  }

  /**
   A breach that lasts is announced again: of bad observations from `i` to `j` that span a cooldown, at
   least one is announced, whatever state the trace began in.
   */
  lemma LastingBreachFiresAgain(rule: Rule, prior: Option<RuleState>, trace: seq<Observation>, i: nat, j: nat)
    requires InOrder(trace) && i <= j < |trace| && FiredBefore(prior, trace[0].at)
    requires forall n :: i <= n <= j ==> trace[n].value.Some? && IsBad(rule, trace[n].value.value)
    requires trace[j].at - trace[i].at >= 1000 * rule.cooldownSeconds
    ensures exists n :: i <= n <= j && FiresAt(rule, prior, trace, n)
  {
    hide IsBad, FiresAt, After, InOrder;
    if forall n :: i <= n <= j ==> !FiresAt(rule, prior, trace, n) {
      FiredInThePast(rule, prior, trace, i);
      OneMoreWait(rule, prior, trace, j);
      if i < j { StillWaiting(rule, prior, trace, i, j); }
    }
  }

  /** Two hours into a breach announced at the start, with a cooldown of one hour: announced again. */
  lemma AnnouncedAgain()
    ensures var rule := Rule(Lt, Some(1.2), None, 3600);
            var state := RuleState(Breached, Some(1.0), 0, Some(0));
            Evaluate(rule, Some(1.0), Some(state), 7_200_000).1 == Some(AlertFired)
  {
  }
}

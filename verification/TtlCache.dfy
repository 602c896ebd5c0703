/**
 The single-flight TTL cache. A `get` runs to its first await in one step, and a load settles in
 another, so calls interleave only between these steps.
 */
module TtlCache {
  import opened Wrappers

  datatype Entry<V> = Entry(value: V, expiresAt: int)

  /** The cache's two maps; a pending load is known by its number. */
  datatype Maps<V> = Maps(entries: map<string, Entry<V>>, inFlight: map<string, nat>)

  datatype Outcome<V> = Served(value: V) | Joined(load: nat) | Started

  function Lookup<V>(m: Maps<V>, ttlMs: int, key: string, now: int, load: nat): (Maps<V>, Outcome<V>) {
    if ttlMs <= 0 then (m, Started)
    else if key in m.entries && m.entries[key].expiresAt > now then (m, Served(m.entries[key].value))
    else if key in m.inFlight then (m, Joined(m.inFlight[key]))
    else (m.(inFlight := m.inFlight[key := load]), Started)
  }

  function Loaded<V>(m: Maps<V>, ttlMs: int, key: string, value: V, now: int): Maps<V> {
    if ttlMs <= 0 then m else Maps(m.entries[key := Entry(value, now + ttlMs)], m.inFlight - {key})
  }

  function Failed<V>(m: Maps<V>, ttlMs: int, key: string): Maps<V> {
    if ttlMs <= 0 then m else m.(inFlight := m.inFlight - {key})
  }

  class Cache<V> {
    const ttlMs: int
    var entries: map<string, Entry<V>>
    var inFlight: map<string, nat>

    ghost function Contents(): Maps<V>
      reads this
    {
      Maps(entries, inFlight)
    }

    constructor (ttlMs: int)
      ensures this.ttlMs == ttlMs && Contents() == Maps(map[], map[])
    {
      this.ttlMs := ttlMs;
      entries, inFlight := map[], map[];
    }

    /** get up to its first await; on Started the caller runs the loader as load number `load`. */
    method Get(key: string, now: int, load: nat) returns (r: Outcome<V>)
      modifies this`inFlight
      ensures (Contents(), r) == Lookup(old(Contents()), ttlMs, key, now, load)
    {
      if ttlMs <= 0 { return Started; }
      if key in entries && entries[key].expiresAt > now { return Served(entries[key].value); }
      if key in inFlight { return Joined(inFlight[key]); }
      inFlight := inFlight[key := load];
      r := Started;
    }

    method OnLoaded(key: string, value: V, now: int)
      modifies this
      ensures Contents() == Loaded(old(Contents()), ttlMs, key, value, now)
    {
      if ttlMs > 0 {
        entries := entries[key := Entry(value, now + ttlMs)];
        inFlight := inFlight - {key};
      }
    }

    method OnFailed(key: string)
      modifies this`inFlight
      ensures Contents() == Failed(old(Contents()), ttlMs, key)
    {
      if ttlMs > 0 {
        inFlight := inFlight - {key};
      }
    }

    method Clear()
      modifies this`entries
      ensures Contents() == old(Contents()).(entries := map[])
    {
      entries := map[];
    }
  }

  // ---- Interleavings ----

  /** The cache with its surroundings: the clock and the loads that are running. */
  datatype System<V> = System(now: int, maps: Maps<V>, running: map<nat, string>, nextLoad: nat)

  datatype Event<V> = Get(key: string) | LoadOk(load: nat, value: V) | LoadFails(load: nat) | Clear | Advance(ms: nat)

  function Start<V>(): System<V> {
    System(0, Maps(map[], map[]), map[], 0)
  }

  function OutcomeOf<V>(s: System<V>, ttlMs: int, key: string): Outcome<V> {
    Lookup(s.maps, ttlMs, key, s.now, s.nextLoad).1
  }

  function Step<V>(s: System<V>, ttlMs: int, e: Event<V>): System<V> {
    match e
    case Get(key) =>
      var (maps, outcome) := Lookup(s.maps, ttlMs, key, s.now, s.nextLoad);
      if outcome.Started? then System(s.now, maps, s.running[s.nextLoad := key], s.nextLoad + 1) else s
    case LoadOk(id, v) =>
      if id !in s.running then s
      else s.(maps := Loaded(s.maps, ttlMs, s.running[id], v, s.now), running := s.running - {id})
    case LoadFails(id) =>
      if id !in s.running then s
      else s.(maps := Failed(s.maps, ttlMs, s.running[id]), running := s.running - {id})
    case Clear => s.(maps := s.maps.(entries := map[]))
    case Advance(ms) => s.(now := s.now + ms)
  }

  function Run<V>(ttlMs: int, events: seq<Event<V>>): System<V> {
    if events == [] then Start() else Step(Run(ttlMs, events[..|events| - 1]), ttlMs, events[|events| - 1])
  }

  /** In-flight entries and running loads are the same thing seen from both sides. */
  ghost predicate SingleFlight<V>(s: System<V>) {
    && (forall k :: k in s.maps.inFlight ==> s.maps.inFlight[k] in s.running && s.running[s.maps.inFlight[k]] == k)
    && (forall id :: id in s.running ==> s.running[id] in s.maps.inFlight && s.maps.inFlight[s.running[id]] == id)
    && (forall id :: id in s.running ==> id < s.nextLoad)
  }

  lemma StepKeepsSingleFlight<V>(s: System<V>, ttlMs: int, e: Event<V>)
    requires ttlMs > 0 && SingleFlight(s)
    ensures SingleFlight(Step(s, ttlMs, e))
  {
  }

  lemma NothingInFlight<V>()
    ensures SingleFlight<V>(Start())
  {
  }

  lemma {:induction false} RunsAreSingleFlight<V>(ttlMs: int, events: seq<Event<V>>)
    requires ttlMs > 0
    ensures SingleFlight(Run(ttlMs, events))
  {
    hide Step, SingleFlight;
    NothingInFlight<V>();
    if events != [] {
      RunsAreSingleFlight(ttlMs, events[..|events| - 1]);
      StepKeepsSingleFlight(Run(ttlMs, events[..|events| - 1]), ttlMs, events[|events| - 1]);
    }
  }

  /** At most one load per key is ever running, and joining means joining that one. */
  lemma OneLoadPerKey<V>(ttlMs: int, events: seq<Event<V>>, a: nat, b: nat, key: string)
    requires ttlMs > 0
    ensures var s := Run(ttlMs, events);
            && (a in s.running && b in s.running && s.running[a] == s.running[b] ==> a == b)
            && (OutcomeOf(s, ttlMs, key).Joined? ==>
                  OutcomeOf(s, ttlMs, key).load in s.running && s.running[OutcomeOf(s, ttlMs, key).load] == key)
            && (OutcomeOf(s, ttlMs, key).Started? ==> forall id :: id in s.running ==> s.running[id] != key)
  {
    RunsAreSingleFlight(ttlMs, events);
  }

  /**
   Event `i` is a load of `key` that succeeded with `e.value`, set `e.expiresAt`, and was followed by
   no clear.
   */
  ghost predicate StoredBy<V>(ttlMs: int, events: seq<Event<V>>, key: string, e: Entry<V>, i: nat) {
    && i < |events|
    && events[i].LoadOk? && events[i].value == e.value
    && Settles(Run(ttlMs, events[..i]), events[i].load, key)
    && e.expiresAt == Run(ttlMs, events[..i]).now + ttlMs
    && forall j :: i < j < |events| ==> !events[j].Clear?
  }

  predicate Settles<V>(s: System<V>, load: nat, key: string) {
    load in s.running && s.running[load] == key
  }

  lemma {:induction false} EntriesAreStored<V>(ttlMs: int, events: seq<Event<V>>, key: string) returns (i: nat)
    requires ttlMs > 0 && key in Run(ttlMs, events).maps.entries
    ensures StoredBy(ttlMs, events, key, Run(ttlMs, events).maps.entries[key], i)
  {
    hide Step, Settles;
    var n := |events| - 1;
    var init := events[..n];
    EntryAfterStep(Run(ttlMs, init), ttlMs, events[n], key);
    if events[n].LoadOk? && Settles(Run(ttlMs, init), events[n].load, key) {
      i := n;
    } else {
      i := EntriesAreStored(ttlMs, init, key);
      assert init[..i] == events[..i];
    }
  }

  /** An entry comes from the load that settles in this step, or was there before it. */
  lemma EntryAfterStep<V>(s: System<V>, ttlMs: int, e: Event<V>, key: string)
    requires ttlMs > 0 && key in Step(s, ttlMs, e).maps.entries
    ensures var entry := Step(s, ttlMs, e).maps.entries[key];
            if e.LoadOk? && Settles(s, e.load, key) then entry == Entry(e.value, s.now + ttlMs)
            else !e.Clear? && key in s.maps.entries && s.maps.entries[key] == entry
  {
  }

  /**
   A served value was loaded for this very key by a load that succeeded, less than `ttlMs` ago, and
   no clear has happened since it was stored. A failed load is therefore never served.
   */
  lemma ServedValuesAreFresh<V>(ttlMs: int, events: seq<Event<V>>, key: string)
    requires ttlMs > 0 && OutcomeOf(Run(ttlMs, events), ttlMs, key).Served?
    ensures exists i: nat, e ::
              && StoredBy(ttlMs, events, key, e, i)
              && OutcomeOf(Run(ttlMs, events), ttlMs, key) == Served(e.value)
              && Run(ttlMs, events).now - Run(ttlMs, events[..i]).now < ttlMs
  {
    var i := EntriesAreStored(ttlMs, events, key);
  }

  // ---- Load rate ----

  predicate IsStart<V>(ttlMs: int, events: seq<Event<V>>, i: nat, key: string) {
    i < |events| && events[i] == Event.Get(key) && OutcomeOf(Run(ttlMs, events[..i]), ttlMs, key).Started?
  }

  /** Between `i` and `j` nothing was cleared and no load of `key` failed. */
  ghost predicate Undisturbed<V>(ttlMs: int, events: seq<Event<V>>, i: nat, j: nat, key: string) {
    forall m :: i < m < j && m < |events| ==>
      !events[m].Clear? && !(events[m].LoadFails? && Settles(Run(ttlMs, events[..m]), events[m].load, key))
  }

  ghost predicate Covered<V>(s: System<V>, key: string, until: int) {
    key in s.maps.inFlight || (key in s.maps.entries && s.maps.entries[key].expiresAt >= until)
  }

  lemma StepKeepsCover<V>(s: System<V>, ttlMs: int, e: Event<V>, key: string, until: int)
    requires ttlMs > 0 && SingleFlight(s) && Covered(s, key, until) && until <= s.now + ttlMs
    requires !e.Clear? && !(e.LoadFails? && Settles(s, e.load, key))
    ensures Covered(Step(s, ttlMs, e), key, until) && Step(s, ttlMs, e).now >= s.now
  {
  }

  lemma StartGivesCover<V>(s: System<V>, ttlMs: int, key: string)
    requires ttlMs > 0 && OutcomeOf(s, ttlMs, key).Started?
    ensures Covered(Step(s, ttlMs, Event.Get(key)), key, s.now + ttlMs) && Step(s, ttlMs, Event.Get(key)).now == s.now
  {
  }

  lemma {:induction false} StartCovers<V>(ttlMs: int, events: seq<Event<V>>, i: nat, j: nat, key: string)
    requires ttlMs > 0 && i < j <= |events| && IsStart(ttlMs, events, i, key) && Undisturbed(ttlMs, events, i, j, key)
    ensures Covered(Run(ttlMs, events[..j]), key, Run(ttlMs, events[..i]).now + ttlMs)
    ensures Run(ttlMs, events[..i]).now <= Run(ttlMs, events[..j]).now
    decreases j
  {
    var n := j - 1;
    assert events[..j][..n] == events[..n] && events[..j][n] == events[n];
    hide Step, OutcomeOf, SingleFlight, Covered;
    if n > i {
      StartCovers(ttlMs, events, i, n, key);
      RunsAreSingleFlight(ttlMs, events[..n]);
      StepKeepsCover(Run(ttlMs, events[..n]), ttlMs, events[n], key, Run(ttlMs, events[..i]).now + ttlMs);
    } else {
      StartGivesCover(Run(ttlMs, events[..i]), ttlMs, key);
    }
  }

  /** Without failures and clears, two load starts of one key are at least `ttlMs` apart. */
  lemma StartsAreSpaced<V>(ttlMs: int, events: seq<Event<V>>, i: nat, j: nat, key: string)
    requires ttlMs > 0 && i < j
    requires IsStart(ttlMs, events, i, key) && IsStart(ttlMs, events, j, key) && Undisturbed(ttlMs, events, i, j, key)
    ensures Run(ttlMs, events[..j]).now - Run(ttlMs, events[..i]).now >= ttlMs
  {
    StartCovers(ttlMs, events, i, j, key);
  }

  // ---- What clear reaches ----

  lemma {:induction false} LoadNumbersGrow<V>(ttlMs: int, events: seq<Event<V>>, i: nat)
    requires i <= |events|
    ensures Run(ttlMs, events[..i]).nextLoad <= Run(ttlMs, events).nextLoad
    decreases |events|
  {
    var n := |events| - 1;
    if i <= n {
      LoadNumbersGrow(ttlMs, events[..n], i);
      assert events[..n][..i] == events[..i];
    } else {
      assert events[..i] == events;
    }
  }

  /** A running load was started by a get of its key that missed. */
  lemma {:induction false} RunningWasStarted<V>(ttlMs: int, events: seq<Event<V>>, load: nat) returns (s: nat)
    requires ttlMs > 0 && load in Run(ttlMs, events).running
    ensures IsStart(ttlMs, events, s, Run(ttlMs, events).running[load]) && Run(ttlMs, events[..s]).nextLoad == load
    decreases |events|
  {
    hide Step, OutcomeOf;
    var n := |events| - 1;
    var init := events[..n];
    RunsAreSingleFlight(ttlMs, init);
    StillOrNewlyRunning(Run(ttlMs, init), ttlMs, events[n], load);
    if load in Run(ttlMs, init).running {
      s := RunningWasStarted(ttlMs, init, load);
      assert init[..s] == events[..s] && init[s] == events[s];
    } else {
      s := n;
    }
  }

  /** A running load was running already, for the same key, or is the one this get starts. */
  lemma StillOrNewlyRunning<V>(s: System<V>, ttlMs: int, e: Event<V>, load: nat)
    requires load in Step(s, ttlMs, e).running && (load in s.running ==> load < s.nextLoad)
    ensures var key := Step(s, ttlMs, e).running[load];
            if load in s.running then s.running[load] == key
            else e == Event.Get(key) && OutcomeOf(s, ttlMs, key).Started? && s.nextLoad == load
  {
  }

  /** After an instant at which `key` has no load in flight, its running loads are later ones. */
  lemma {:induction false} LaterLoadsOnly<V>(ttlMs: int, events: seq<Event<V>>, c: nat, key: string, load: nat)
    requires ttlMs > 0 && c <= |events| && key !in Run(ttlMs, events[..c]).maps.inFlight
    requires Settles(Run(ttlMs, events), load, key)
    ensures load >= Run(ttlMs, events[..c]).nextLoad
    decreases |events|
  {
    hide Step, Settles, SingleFlight;
    if c == |events| {
      assert events[..c] == events;
      RunsAreSingleFlight(ttlMs, events);
      RunningIsInFlight(Run(ttlMs, events), load, key);
    } else {
      var n := |events| - 1;
      var init := events[..n];
      assert init[..c] == events[..c];
      if Settles(Run(ttlMs, init), load, key) {
        LaterLoadsOnly(ttlMs, init, c, key, load);
      } else {
        LoadNumbersGrow(ttlMs, init, c);
        NewlyRunning(Run(ttlMs, init), ttlMs, events[n], load, key);
      }
    }
  }

  lemma RunningIsInFlight<V>(s: System<V>, load: nat, key: string)
    requires SingleFlight(s) && Settles(s, load, key)
    ensures key in s.maps.inFlight
  {
  }

  lemma NewlyRunning<V>(s: System<V>, ttlMs: int, e: Event<V>, load: nat, key: string)
    requires !Settles(s, load, key) && Settles(Step(s, ttlMs, e), load, key)
    ensures load == s.nextLoad
  {
  }

  /** Load `load` was begun by a get after event `c`. */
  ghost predicate BegunAfter<V>(ttlMs: int, events: seq<Event<V>>, c: nat, key: string, load: nat) {
    exists s :: c < s < |events| && IsStart(ttlMs, events, s, key) && Run(ttlMs, events[..s]).nextLoad == load
  }

  /**
   A clear with no load of `key` in flight reaches everything: whatever is served for it at any later
   time was loaded by a load that began after the clear.
   */
  lemma ClearReachesSettledKeys<V>(ttlMs: int, events: seq<Event<V>>, c: nat, key: string, e: Entry<V>, i: nat)
    requires ttlMs > 0 && c < |events| && events[c].Clear? && key !in Run(ttlMs, events[..c]).maps.inFlight
    requires StoredBy(ttlMs, events, key, e, i)
    ensures c < i
    ensures events[i].load >= Run(ttlMs, events[..c]).nextLoad && BegunAfter(ttlMs, events, c, key, events[i].load)
  {
    assert c < i;
    var before := events[..i];
    var load := events[i].load;
    assert before[..c] == events[..c];
    LaterLoadsOnly(ttlMs, before, c, key, load);
    var s := RunningWasStarted(ttlMs, before, load);
    assert before[..s] == events[..s] && before[s] == events[s];
    if s < c {
      assert events[..c][..s] == events[..s] && events[..c][s] == events[s];
      StartsCount(ttlMs, events[..c], s, key);
    }
  }

  /** A start takes its number for good. */
  lemma StartsCount<V>(ttlMs: int, events: seq<Event<V>>, s: nat, key: string)
    requires ttlMs > 0 && IsStart(ttlMs, events, s, key)
    ensures Run(ttlMs, events[..s]).nextLoad < Run(ttlMs, events).nextLoad
  {
    assert events[..s + 1][..s] == events[..s];
    LoadNumbersGrow(ttlMs, events, s + 1);
  }

  /** Everything served for `key` after `before`, a clear and `more` was loaded by a load begun after the clear. */
  ghost predicate ServesOnlyLaterLoads<V>(ttlMs: int, before: seq<Event<V>>, more: seq<Event<V>>, key: string) {
    var events := before + [Clear] + more;
    var s := Run(ttlMs, events);
    OutcomeOf(s, ttlMs, key).Served? && key in s.maps.entries ==>
      forall i: nat :: StoredBy(ttlMs, events, key, s.maps.entries[key], i) ==>
        BegunAfter(ttlMs, events, |before|, key, events[i].load)
  }

  /** With a load in flight, its value is stored after the clear and served, although the load began before it. */
  lemma LoadInFlightOutlivesClear<V>(ttlMs: int, before: seq<Event<V>>, key: string, value: V)
    requires ttlMs > 0 && key in Run(ttlMs, before).maps.inFlight
    ensures var load := Run(ttlMs, before).maps.inFlight[key];
            !ServesOnlyLaterLoads(ttlMs, before, [LoadOk(load, value)], key)
  {
    RunsAreSingleFlight(ttlMs, before);
    var s := Run(ttlMs, before);
    var load := s.maps.inFlight[key];
    var cleared := before + [Clear];
    var events := before + [Clear] + [LoadOk(load, value)];
    var n := |before|;
    assert cleared[..n] == before && events[..n + 1] == cleared && events[..n] == before;
    assert Run(ttlMs, cleared) == Step(s, ttlMs, Clear);
    assert Run(ttlMs, events) == Step(Run(ttlMs, cleared), ttlMs, LoadOk(load, value));
    assert StoredBy(ttlMs, events, key, Entry(value, s.now + ttlMs), n + 1);
    assert !BegunAfter(ttlMs, events, n, key, load) by {
      assert forall j :: n < j < |events| ==> !events[j].Get?;
    }
  }

  /**
   The exact reach of `clear`: nothing loaded from before it is ever served after it, in any
   continuation, if and only if no load of the key was in flight.
   */
  lemma ClearMissesOnlyLoadsInFlight<V>(ttlMs: int, before: seq<Event<V>>, key: string, value: V)
    requires ttlMs > 0
    ensures (forall more: seq<Event<V>> :: ServesOnlyLaterLoads(ttlMs, before, more, key))
            <==> key !in Run(ttlMs, before).maps.inFlight
  {
    if key in Run(ttlMs, before).maps.inFlight {
      LoadInFlightOutlivesClear(ttlMs, before, key, value);
    } else {
      forall more: seq<Event<V>> ensures ServesOnlyLaterLoads(ttlMs, before, more, key) {
        var events := before + [Clear] + more;
        assert events[..|before|] == before && events[|before|].Clear?;
        var s := Run(ttlMs, events);
        if key in s.maps.entries {
          forall i: nat | StoredBy(ttlMs, events, key, s.maps.entries[key], i)
            ensures BegunAfter(ttlMs, events, |before|, key, events[i].load)
          {
            ClearReachesSettledKeys(ttlMs, events, |before|, key, s.maps.entries[key], i);
          }
        }
      }
    }
  }

  /** Without a positive ttl there is no cache: every get loads for itself, and nothing is kept. */
  lemma {:induction false} NoTtlNoCache<V>(ttlMs: int, events: seq<Event<V>>, key: string)
    requires ttlMs <= 0
    ensures Run(ttlMs, events).maps == Maps(map[], map[]) && OutcomeOf(Run(ttlMs, events), ttlMs, key) == Started
  {
    if events != [] {
      NoTtlNoCache(ttlMs, events[..|events| - 1], key);
    }
  }
}

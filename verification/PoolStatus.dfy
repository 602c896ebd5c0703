/**
 The pool-status family: each sweep compares a pool's label with the one recorded before, notifies of
 changes between known labels, and records what it saw, `Unknown` included.
 */
module PoolStatus {
  import opened Wrappers
  import opened AlertMachine

  /** A derived status label; `Unknown` stands for a status code the source has no label for. */
  datatype Label = Unknown | Named(name: string)

  datatype Outcome = Seed | Unchanged | Changed | Suppressed

  function DiffPoolStatus(prev: Option<Label>, current: Label): Outcome {
    if prev.None? then Seed
    else if prev.value == current then Unchanged
    else if prev.value == Unknown || current == Unknown then Suppressed
    else Changed
  }

  datatype Notice = Notice(from: Label, to: Label)

  /** One pool's recorded status and the changes its users were told of. */
  class Watch {
    var status: Option<Label>
    var notices: seq<Notice>

    constructor ()
      ensures status.None? && notices == []
    {
      status, notices := None, [];
    }

    /** One sweep's observation: upsert the state always, notify on a change. */
    method Observe(seen: Label)
      modifies this
      ensures status == Some(seen)
      ensures notices == old(notices) + NoticeOf(old(status), seen)
    {
      var outcome := DiffPoolStatus(status, seen);
      if outcome == Changed {
        notices := notices + [Notice(status.value, seen)];
      }
      status := Some(seen);
    }
  }

  function NoticeOf(prev: Option<Label>, seen: Label): seq<Notice> {
    if DiffPoolStatus(prev, seen) == Changed then [Notice(prev.value, seen)] else []
  }

  function Recorded(labels: seq<Label>): Option<Label> {
    if labels == [] then None else Some(Last(labels))
  }

  /** What a run of observations, each as `Watch.Observe` makes it, tells the pool's users. */
  function NoticesOf(labels: seq<Label>): seq<Notice> {
    if labels == [] then [] else NoticesOf(Init(labels)) + NoticeOf(Recorded(Init(labels)), Last(labels))
  }

  predicate AllKnown(labels: seq<Label>) {
    forall i :: 0 <= i < |labels| ==> labels[i] != Unknown
  }

  /** Each change starts where the one before it ended. */
  ghost predicate IsChain(ns: seq<Notice>) {
    && (forall i :: 0 <= i < |ns| ==> ns[i].from != ns[i].to)
    && (forall i, j :: 0 <= i && j == i + 1 && j < |ns| ==> ns[i].to == ns[j].from)
  }

  /** What a user who was told everything so far takes the status to be. */
  function Believed(first: Label, ns: seq<Notice>): Label {
    if ns == [] then first else Last(ns).to
  }

  /** While the label stays known, users are told of every change, in a chain that ends at the current label. */
  lemma {:induction false} KnownRunsAreToldInFull(labels: seq<Label>)
    requires AllKnown(labels) && labels != []
    ensures IsChain(NoticesOf(labels))
    ensures Believed(labels[0], NoticesOf(labels)) == Last(labels)
    ensures NoticesOf(labels) != [] ==> NoticesOf(labels)[0].from == labels[0]
  {
    var init := Init(labels);
    hide IsChain, Believed, NoticesOf;
    if init == [] {
      NoNotices(labels[0]);
      FirstSeen(labels);
    } else {
      KnownRunsAreToldInFull(init);
      OneMoreSeen(labels);
      ChainGrows(labels[0], NoticesOf(init), Last(init), Last(labels));
    }
  }

  lemma FirstSeen(labels: seq<Label>)
    requires |labels| == 1
    ensures NoticesOf(labels) == []
  {
    assert Init(labels) == [];
  }

  lemma OneMoreSeen(labels: seq<Label>)
    requires |labels| > 1 && AllKnown(labels)
    ensures AllKnown(Init(labels)) && Init(labels)[0] == labels[0]
    ensures var told, x, y := NoticesOf(Init(labels)), Last(Init(labels)), Last(labels);
            NoticesOf(labels) == if x == y then told else told + [Notice(x, y)]
  {
    var told := NoticesOf(Init(labels));
    assert told + [] == told;
  }

  lemma NoNotices(first: Label)
    ensures IsChain([]) && Believed(first, []) == first
  {
  }

  lemma ChainGrows(first: Label, ns: seq<Notice>, x: Label, y: Label)
    requires IsChain(ns) && Believed(first, ns) == x && (ns != [] ==> ns[0].from == first)
    ensures var more := if x == y then ns else ns + [Notice(x, y)];
            IsChain(more) && Believed(first, more) == y && (more != [] ==> more[0].from == first)
  {
  }

  /** An Unknown observation is a cut: the notices are those of the two sides, each on its own. */
  lemma {:induction false} UnknownForgets(a: seq<Label>, b: seq<Label>)
    ensures NoticesOf(a + [Unknown] + b) == NoticesOf(a) + NoticesOf(b)
  {
    var all := a + [Unknown] + b;
    if b == [] {
      assert Init(all) == a;
    } else {
      assert Init(all) == a + [Unknown] + Init(b) && Last(all) == Last(b);
      UnknownForgets(a, Init(b));
      if Init(b) == [] {
        assert Last(Init(all)) == Unknown;
      } else {
        assert Last(Init(all)) == Last(Init(b));
      }
    }
  }

  predicate AllUnknown(labels: seq<Label>) {
    forall i :: 0 <= i < |labels| ==> labels[i] == Unknown
  }

  /** So is an outage of any length. */
  lemma {:induction false} OutageForgets(a: seq<Label>, gap: seq<Label>, b: seq<Label>)
    requires gap != [] && AllUnknown(gap)
    ensures NoticesOf(a + gap + b) == NoticesOf(a) + NoticesOf(b)
    decreases |gap|
  {
    hide NoticesOf;
    var rest := gap[1..];
    assert gap == [Unknown] + rest;
    assert a + gap + b == a + [Unknown] + (rest + b);
    UnknownForgets(a, rest + b);
    if rest == [] {
      assert rest + b == b;
    } else {
      OutageForgets([], rest, b);
      assert [] + rest + b == rest + b;
      NothingSeenNothingTold();
    }
  }

  lemma NothingSeenNothingTold()
    ensures NoticesOf([]) == []
  {
  }

  lemma BelievedOver(first: Label, a: seq<Notice>, b: seq<Notice>)
    ensures Believed(first, a + b) == if b == [] then Believed(first, a) else Last(b).to
  {
    if b == [] {
      assert a + b == a;
    }
  }

  /**
   After any past, an outage of any length and a known run of any length, users end up with the right
   status if and only if the run holds a change of its own, or starts at what they believed before.
   */
  lemma ChangesBehindUnknownAreLost(first: Label, a: seq<Label>, gap: seq<Label>, b: seq<Label>)
    requires gap != [] && AllUnknown(gap) && b != [] && AllKnown(b)
    ensures Believed(first, NoticesOf(a + gap + b)) == Last(b)
            <==> NoticesOf(b) != [] || Believed(first, NoticesOf(a)) == b[0]
  {
    hide NoticesOf, IsChain;
    OutageForgets(a, gap, b);
    KnownRunsAreToldInFull(b);
    BelievedOver(first, NoticesOf(a), NoticesOf(b));
  }

  /** The label turns from one known value into another between two observations. */
  predicate Turns(labels: seq<Label>, i: int) {
    0 < i < |labels| && labels[i - 1] != Unknown && labels[i] != Unknown && labels[i - 1] != labels[i]
  }

  predicate IsLastTurn(labels: seq<Label>, i: int) {
    Turns(labels, i) && forall j :: i < j < |labels| ==> !Turns(labels, j)
  }

  /**
   What users of a pool are left with, in terms of its labels alone: the one the last turn led to, or
   the first of all when there is no turn.
   */
  ghost predicate LeftWith(labels: seq<Label>, left: Label)
    requires labels != []
  {
    if exists i :: Turns(labels, i) then exists i :: IsLastTurn(labels, i) && labels[i] == left
    else labels[0] == left
  }

  lemma TurnsBefore(labels: seq<Label>, i: int)
    requires labels != []
    ensures Turns(labels, i) <==> Turns(Init(labels), i) || (i == |labels| - 1 && Turns(labels, i))
  {
  }

  lemma OnlyOneIsLast(labels: seq<Label>, i: int, j: int)
    requires IsLastTurn(labels, i) && IsLastTurn(labels, j)
    ensures i == j
  {
  }

  lemma {:induction false} BelievedIsLeftWith(labels: seq<Label>)
    requires labels != []
    ensures LeftWith(labels, Believed(labels[0], NoticesOf(labels)))
  {
    var n := |labels| - 1;
    var init := Init(labels);
    if init == [] {
      FirstSeen(labels);
    } else if Turns(labels, n) {
      assert IsLastTurn(labels, n);
    } else {
      BelievedIsLeftWith(init);
      hide Believed, NoticesOf;
      NothingTold(labels);
      KeepsLastTurn(labels, Believed(labels[0], NoticesOf(init)));
    }
  }

  lemma NothingTold(labels: seq<Label>)
    requires |labels| > 1 && !Turns(labels, |labels| - 1)
    ensures NoticesOf(labels) == NoticesOf(Init(labels))
  {
    assert Last(Init(labels)) == labels[|labels| - 2];
  }

  lemma KeepsLastTurn(labels: seq<Label>, left: Label)
    requires |labels| > 1 && !Turns(labels, |labels| - 1) && LeftWith(Init(labels), left)
    ensures LeftWith(labels, left)
  {
    var init := Init(labels);
    forall i ensures Turns(labels, i) <==> Turns(init, i) {
      TurnsBefore(labels, i);
    }
    if i :| IsLastTurn(init, i) && init[i] == left {
      assert IsLastTurn(labels, i) && labels[i] == left;
    }
  }

  /**
   For every run of observations, with any number of outages in it: users have the right status at the
   end if and only if the last label is the one the last turn led to, or the first one when the label
   never turned from one known value into another.
   */
  lemma UsersAreRightExactly(labels: seq<Label>)
    requires labels != []
    ensures Believed(labels[0], NoticesOf(labels)) == Last(labels) <==> LeftWith(labels, Last(labels))
  {
    hide Believed, NoticesOf;
    BelievedIsLeftWith(labels);
    forall i, j | IsLastTurn(labels, i) && IsLastTurn(labels, j) ensures i == j {
      OnlyOneIsLast(labels, i, j);
    }
  }

  /** The smallest lost change: two sweeps without a label, and another label after them. */
  lemma OutageHidesAChange(x: Label, y: Label)
    requires x != Unknown && y != Unknown && x != y
    ensures var seen := [x, Unknown, Unknown, y];
            NoticesOf(seen) == [] && Believed(x, NoticesOf(seen)) != Last(seen)
  {
    OutageForgets([x], [Unknown, Unknown], [y]);
    assert [x] + [Unknown, Unknown] + [y] == [x, Unknown, Unknown, y];
    assert Init([x]) == [] && Init([y]) == [];
  }
}

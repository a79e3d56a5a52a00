/**
 The bounded worker pool that the bootstrap uses three times: to snapshot, to write and to verify
 collections.  Lanes share one index and one failure flag.  A lane is atomic between awaits, so a
 run of the pool is a sequence of events, each of which resumes or finishes one lane; the lemmas
 hold of every such sequence, for any number of lanes and items.
 */
module LanePool {
  import opened Wrappers

  datatype Lane = Ready | Busy(index: nat) | Exited

  /** What an observer of the pool sees. */
  datatype Entry = Claimed(index: nat) | Settled(index: nat, ok: bool)

  datatype Pool = Pool(lanes: seq<Lane>, next: nat, failed: bool, log: seq<Entry>)

  /** `Resume`: a lane evaluates its loop test and claims. `Finish`: the awaited call of a lane ends. */
  datatype Event = Resume(lane: nat) | Finish(lane: nat, ok: bool)

  function Start(k: nat): Pool {
    Pool(seq(k, _ => Ready), 0, false, [])
  }

  predicate Enabled(p: Pool, e: Event) {
    && e.lane < |p.lanes|
    && match e
       case Resume(l) => p.lanes[l].Ready?
       case Finish(l, _) => p.lanes[l].Busy?
  }

  /** One atomic slice of a lane.  The shared index grows even when it is past the last item. */
  function Step(p: Pool, n: nat, e: Event): Pool
    requires Enabled(p, e)
  {
    match e
    case Resume(l) =>
      if p.failed then
        p.(lanes := p.lanes[l := Exited])
      else if p.next < n then
        p.(lanes := p.lanes[l := Busy(p.next)], next := p.next + 1, log := p.log + [Claimed(p.next)])
      else
        p.(lanes := p.lanes[l := Exited], next := p.next + 1)
    case Finish(l, ok) =>
      p.(lanes := p.lanes[l := Ready], failed := p.failed || !ok, log := p.log + [Settled(p.lanes[l].index, ok)])
  }

  /** The pool joins when every lane has returned. */
  predicate Joined(p: Pool) {
    forall l :: 0 <= l < |p.lanes| ==> p.lanes[l].Exited?
  }

  // ---------- What the log says ----------

  /** The claimed indices, in the order of the claims. */
  function Claims(log: seq<Entry>): seq<nat> {
    if log == [] then []
    else
      var before := Claims(log[..|log| - 1]);
      var e := log[|log| - 1];
      if e.Claimed? then before + [e.index] else before
  }

  /** 0, 1, …, n - 1. */
  function UpTo(n: nat): (r: seq<nat>)
    ensures |r| == n && forall i :: 0 <= i < n ==> r[i] == i
  {
    if n == 0 then [] else UpTo(n - 1) + [n - 1]
  }

  predicate IsSettled(log: seq<Entry>, i: nat) {
    Settled(i, true) in log || Settled(i, false) in log
  }

  /** Items whose call has been issued and has not come back. */
  function InFlight(log: seq<Entry>): set<nat> {
    set e <- log | e.Claimed? && !IsSettled(log, e.index) :: e.index
  }

  predicate NoClaimAfterFailure(log: seq<Entry>) {
    forall i, j :: 0 <= i < j < |log| && log[i].Settled? && !log[i].ok ==> !log[j].Claimed?
  }

  /** No item is claimed twice, nor settled twice. */
  predicate EachAtMostOnce(log: seq<Entry>) {
    forall i, j :: 0 <= i < j < |log| && log[i].index == log[j].index ==> log[i].Claimed? && log[j].Settled?
  }

  // ---------- The invariant of a run ----------

  function Started(p: Pool, n: nat): nat {
    if p.next < n then p.next else n
  }

  ghost predicate LaneInv(p: Pool) {
    && (forall l :: 0 <= l < |p.lanes| && p.lanes[l].Busy? ==>
          Claimed(p.lanes[l].index) in p.log && !IsSettled(p.log, p.lanes[l].index))
    && (forall l, m :: 0 <= l < m < |p.lanes| && p.lanes[l].Busy? && p.lanes[m].Busy? ==>
          p.lanes[l].index != p.lanes[m].index)
    && (forall i :: i in InFlight(p.log) ==> Busy(i) in p.lanes)
  }

  ghost predicate LogInv(p: Pool, n: nat) {
    && Claims(p.log) == UpTo(Started(p, n))
    && (forall e :: e in p.log ==> e.index < Started(p, n) && Claimed(e.index) in p.log)
    && (forall i :: 0 <= i < Started(p, n) ==> Claimed(i) in p.log)
    && (p.failed <==> exists i :: Settled(i, false) in p.log)
    && NoClaimAfterFailure(p.log)
    && EachAtMostOnce(p.log)
  }

  ghost predicate Inv(p: Pool, n: nat) {
    LaneInv(p) && LogInv(p, n) && (Exited in p.lanes ==> p.failed || p.next >= n)
  }

  lemma StartInv(k: nat, n: nat)
    ensures Inv(Start(k), n) && |Start(k).lanes| == k
  {
  }

  lemma ClaimsSnoc(log: seq<Entry>, e: Entry)
    ensures Claims(log + [e]) == if e.Claimed? then Claims(log) + [e.index] else Claims(log)
  {
    assert (log + [e])[..|log|] == log;
  }

  lemma StepInv(p: Pool, n: nat, e: Event)
    requires Inv(p, n) && Enabled(p, e)
    ensures Inv(Step(p, n, e), n) && |Step(p, n, e).lanes| == |p.lanes|
  {
    hide LogInv, LaneInv;
    match e {
      case Resume(l) =>
        if !p.failed && p.next < n {
          ClaimKeepsLog(p, n, l);
          ClaimKeepsLanes(p, n, l);
        } else {
          ExitKeeps(p, n, l);
        }
      case Finish(l, ok) =>
        FinishKeepsLog(p, n, l, ok);
        FinishKeepsLanes(p, n, l, ok);
    }
  }

  lemma ExitKeeps(p: Pool, n: nat, l: nat)
    requires Inv(p, n) && Enabled(p, Resume(l)) && (p.failed || p.next >= n)
    ensures Inv(Step(p, n, Resume(l)), n)
  {
    hide Claims, EachAtMostOnce, NoClaimAfterFailure, UpTo, InFlight, IsSettled;
    IdleUpdateKeepsBusy(p.lanes, l);
  }

  lemma ClaimKeepsLog(p: Pool, n: nat, l: nat)
    requires Inv(p, n) && Enabled(p, Resume(l)) && !p.failed && p.next < n
    ensures LogInv(Step(p, n, Resume(l)), n)
  {
    NoneFailed(p);
    ClaimsSnoc(p.log, Claimed(p.next));
    ClaimOnce(p.log, Claimed(p.next));
    hide Claims, EachAtMostOnce, NoClaimAfterFailure, LaneInv, UpTo, IsSettled, InFlight;
    var q := Step(p, n, Resume(l));
    assert q.log == p.log + [Claimed(p.next)] && !q.failed;
    UpToNext(p.next);
    OneMoreClaim(p.log, p.next);
    assert !exists i :: Settled(i, false) in q.log;
  }

  lemma OneMoreClaim(log: seq<Entry>, next: nat)
    requires forall e :: e in log ==> e.index < next && Claimed(e.index) in log
    requires forall i :: 0 <= i < next ==> Claimed(i) in log
    requires forall e :: e in log && e.Settled? ==> e.ok
    ensures var more := log + [Claimed(next)];
            && (forall e :: e in more ==> e.index < next + 1 && Claimed(e.index) in more)
            && (forall i :: 0 <= i < next + 1 ==> Claimed(i) in more)
            && (forall e :: e in more && e.Settled? ==> e.ok)
  {
    assert forall e :: e in log + [Claimed(next)] <==> e in log || e == Claimed(next);
  }

  lemma UpToNext(n: nat)
    ensures UpTo(n + 1) == UpTo(n) + [n]
  {
  }

  lemma NoneFailed(p: Pool)
    requires !p.failed && (p.failed <==> exists i :: Settled(i, false) in p.log)
    ensures forall e :: e in p.log && e.Settled? ==> e.ok
  {
    forall e | e in p.log && e.Settled? ensures e.ok {
      assert e == Settled(e.index, e.ok);
    }
  }

  lemma ClaimOnce(log: seq<Entry>, entry: Entry)
    requires EachAtMostOnce(log) && NoClaimAfterFailure(log) && entry.Claimed?
    requires forall e :: e in log ==> e.index < entry.index && (e.Settled? ==> e.ok)
    ensures EachAtMostOnce(log + [entry]) && NoClaimAfterFailure(log + [entry])
  {
    forall i | 0 <= i < |log| ensures log[i].index != entry.index && (log[i].Settled? ==> log[i].ok) {
      assert log[i] in log;
    }
  }

  lemma FinishKeepsLog(p: Pool, n: nat, l: nat, ok: bool)
    requires Inv(p, n) && Enabled(p, Finish(l, ok))
    ensures LogInv(Step(p, n, Finish(l, ok)), n)
  {
    var entry := Settled(p.lanes[l].index, ok);
    var log := p.log + [entry];
    ClaimsSnoc(p.log, entry);
    SettleOnce(p.log, entry);
    assert forall e :: e in log <==> e in p.log || e == entry;
    FailureFlag(p, entry);
  }

  lemma FailureFlag(p: Pool, entry: Entry)
    requires entry.Settled?
    requires p.failed <==> exists i :: Settled(i, false) in p.log
    ensures p.failed || !entry.ok <==> exists i :: Settled(i, false) in p.log + [entry]
  {
    if p.failed {
      var i :| Settled(i, false) in p.log;
      assert Settled(i, false) in p.log + [entry];
    }
    if !entry.ok {
      assert Settled(entry.index, false) in p.log + [entry];
    }
  }

  lemma SettleOnce(log: seq<Entry>, entry: Entry)
    requires EachAtMostOnce(log) && NoClaimAfterFailure(log)
    requires entry.Settled? && !IsSettled(log, entry.index)
    ensures EachAtMostOnce(log + [entry]) && NoClaimAfterFailure(log + [entry])
  {
    forall i | 0 <= i < |log| && log[i].index == entry.index ensures log[i].Claimed? {
      assert log[i] in log;
    }
  }

  lemma IdleUpdateKeepsBusy(lanes: seq<Lane>, l: nat)
    requires l < |lanes| && lanes[l].Ready?
    ensures forall i :: Busy(i) in lanes <==> Busy(i) in lanes[l := Exited]
  {
    forall i | Busy(i) in lanes ensures Busy(i) in lanes[l := Exited] {
      var m :| 0 <= m < |lanes| && lanes[m] == Busy(i);
      assert lanes[l := Exited][m] == Busy(i);
    }
  }

  lemma ClaimKeepsLanes(p: Pool, n: nat, l: nat)
    requires Inv(p, n) && Enabled(p, Resume(l)) && !p.failed && p.next < n
    ensures LaneInv(Step(p, n, Resume(l)))
  {
    var q := Step(p, n, Resume(l));
    assert q.lanes[l] == Busy(p.next);
    forall i | i in InFlight(q.log) ensures Busy(i) in q.lanes {
      if i != p.next {
        assert i in InFlight(p.log);
        var m :| 0 <= m < |p.lanes| && p.lanes[m] == Busy(i);
        assert q.lanes[m] == Busy(i);
      }
    }
  }

  lemma FinishKeepsLanes(p: Pool, n: nat, l: nat, ok: bool)
    requires Inv(p, n) && Enabled(p, Finish(l, ok))
    ensures LaneInv(Step(p, n, Finish(l, ok)))
  {
    var q := Step(p, n, Finish(l, ok));
    var done := p.lanes[l].index;
    assert q.log[|p.log|] == Settled(done, ok);
    forall i | i in InFlight(q.log) ensures Busy(i) in q.lanes {
      assert i != done && i in InFlight(p.log);
      var m :| 0 <= m < |p.lanes| && p.lanes[m] == Busy(i);
      assert q.lanes[m] == Busy(i);
    }
  }

  // ---------- Every interleaving ----------

  /** The pool after a sequence of events, or nothing when some event could not have happened. */
  function Run(k: nat, n: nat, events: seq<Event>): Option<Pool> {
    if events == [] then Some(Start(k))
    else
      var last := events[|events| - 1];
      match Run(k, n, events[..|events| - 1])
      case None => None
      case Some(p) => if Enabled(p, last) then Some(Step(p, n, last)) else None
  }

  lemma {:induction false} RunInv(k: nat, n: nat, events: seq<Event>)
    ensures Run(k, n, events).Some? ==>
              Inv(Run(k, n, events).value, n) && |Run(k, n, events).value.lanes| == k
  {
    if events == [] {
      StartInv(k, n);
    } else {
      var before := Run(k, n, events[..|events| - 1]);
      RunInv(k, n, events[..|events| - 1]);
      if before.Some? && Enabled(before.value, events[|events| - 1]) {
        StepInv(before.value, n, events[|events| - 1]);
      }
    }
  }

  /** The events are a whole run of a pool of `k` lanes over `n` items, up to the join. */
  ghost predicate WholeRun(k: nat, n: nat, events: seq<Event>) {
    Run(k, n, events).Some? && Joined(Run(k, n, events).value)
  }

  /** One more event of a run. */
  lemma RunSnoc(k: nat, n: nat, events: seq<Event>, p: Pool, e: Event)
    requires Run(k, n, events) == Some(p) && Enabled(p, e)
    ensures Run(k, n, events + [e]) == Some(Step(p, n, e))
    ensures Remaining(Step(p, n, e), n) < Remaining(p, n)
  {
    assert (events + [e])[..|events|] == events;
    StepDecreases(p, n, e);
  }

  /** A call in flight belongs to one lane, is for an item of the pool, and is unanswered. */
  lemma BusyLane(k: nat, n: nat, events: seq<Event>, p: Pool, l: nat)
    requires Run(k, n, events) == Some(p) && l < |p.lanes| && p.lanes[l].Busy?
    ensures p.lanes[l].index < n && !IsSettled(p.log, p.lanes[l].index)
    ensures forall m :: 0 <= m < |p.lanes| && p.lanes[m].Busy? && m != l ==> p.lanes[m].index != p.lanes[l].index
  {
    RunInv(k, n, events);
  }

  /** The next item has not been claimed before. */
  lemma NextIsNew(k: nat, n: nat, events: seq<Event>, p: Pool)
    requires Run(k, n, events) == Some(p)
    ensures Claimed(p.next) !in p.log && !IsSettled(p.log, p.next)
  {
    RunInv(k, n, events);
  }

  /** Items are claimed in order, each at most once, and nothing is claimed after a failure. */
  lemma ClaimDiscipline(k: nat, n: nat, events: seq<Event>, p: Pool)
    requires Run(k, n, events) == Some(p)
    ensures Started(p, n) <= n && Claims(p.log) == UpTo(Started(p, n))
    ensures EachAtMostOnce(p.log)
    ensures NoClaimAfterFailure(p.log)
  {
    RunInv(k, n, events);
  }

  lemma {:induction false} BusyIndicesBounded(lanes: seq<Lane>)
    ensures |set lane <- lanes | lane.Busy? :: lane.index| <= |lanes|
  {
    if lanes != [] {
      var rest := lanes[1..];
      BusyIndicesBounded(rest);
      var small := set lane <- rest | lane.Busy? :: lane.index;
      var big := set lane <- lanes | lane.Busy? :: lane.index;
      assert lanes == [lanes[0]] + rest;
      if lanes[0].Busy? {
        assert big == small + {lanes[0].index};
      } else {
        assert big == small;
      }
    }
  }

  /** At most as many calls are in flight as there are lanes. */
  lemma InFlightBounded(k: nat, n: nat, events: seq<Event>, p: Pool)
    requires Run(k, n, events) == Some(p)
    ensures |InFlight(p.log)| <= k
  {
    RunInv(k, n, events);
    var busy := set lane <- p.lanes | lane.Busy? :: lane.index;
    forall i | i in InFlight(p.log) ensures i in busy {
      assert Busy(i) in p.lanes;
    }
    BusyIndicesBounded(p.lanes);
    SubsetCardinality(InFlight(p.log), busy);
  }

  lemma {:induction false} SubsetCardinality(a: set<nat>, b: set<nat>)
    requires a <= b
    ensures |a| <= |b|
  {
    if a != {} {
      var x :| x in a;
      SubsetCardinality(a - {x}, b - {x});
    }
  }

  /**
   When the pool joins nothing is in flight any more, so no call of the pool can still change the
   remote; the join is clean exactly when every item settled well.
   */
  lemma JoinSettlesEverything(k: nat, n: nat, events: seq<Event>, p: Pool)
    requires Run(k, n, events) == Some(p) && Joined(p) && k > 0
    ensures InFlight(p.log) == {}
    ensures !p.failed <==> forall i :: 0 <= i < n ==> Settled(i, true) in p.log
  {
    RunInv(k, n, events);
    JoinedFacts(p, n);
    if p.failed {
      var i :| Settled(i, false) in p.log;
      OneVerdict(p.log, i);
    }
  }

  lemma OneVerdict(log: seq<Entry>, i: nat)
    requires EachAtMostOnce(log) && Settled(i, false) in log
    ensures Settled(i, true) !in log
  {
  }

  lemma JoinedFacts(p: Pool, n: nat)
    requires Inv(p, n) && Joined(p) && |p.lanes| > 0
    ensures InFlight(p.log) == {}
    ensures !p.failed ==> forall i :: 0 <= i < n ==> Settled(i, true) in p.log
  {
    assert p.lanes[0] in p.lanes;
    if !p.failed {
      forall i | 0 <= i < n ensures Settled(i, true) in p.log {
        assert Claimed(i) in p.log;
        assert i !in InFlight(p.log);
      }
    }
  }

  // ---------- Termination of a pool ----------

  function Weight(lanes: seq<Lane>): nat {
    if lanes == [] then 0
    else Weight(lanes[1..]) + match lanes[0] case Busy(_) => 2 case Ready => 1 case Exited => 0
  }

  function Remaining(p: Pool, n: nat): nat {
    3 * (n - Started(p, n)) + Weight(p.lanes)
  }

  lemma {:induction false} WeightUpdate(lanes: seq<Lane>, l: nat, lane: Lane)
    requires l < |lanes|
    ensures Weight(lanes[l := lane]) == Weight(lanes) - Weight([lanes[l]]) + Weight([lane])
  {
    if l > 0 {
      WeightUpdate(lanes[1..], l - 1, lane);
      assert lanes[l := lane][1..] == lanes[1..][l - 1 := lane];
    } else {
      assert lanes[0 := lane][1..] == lanes[1..];
    }
  }

  /** Every event brings the join closer, whatever the interleaving. */
  lemma StepDecreases(p: Pool, n: nat, e: Event)
    requires Enabled(p, e)
    ensures Remaining(Step(p, n, e), n) < Remaining(p, n)
  {
    var q := Step(p, n, e);
    WeightUpdate(p.lanes, e.lane, q.lanes[e.lane]);
  }
}

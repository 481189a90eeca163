/**
 `_stop_lanes`: every lane is signalled before any is waited for, all share one grace, and
 what stays is killed.
 */
module LaneStop {
  import opened Wrappers

  const GRACE: real := 20.0

  datatype Act = Signal(lane: nat) | Await(lane: nat) | Kill(lane: nat)

  /**
   A started lane. `exitsAt`: when it would end of itself, if ever; `reap`: how long the wait
   after a kill takes. Both are the environment's.
   */
  class Child {
    const exitsAt: Option<real>
    const reap: real
    var signalled: bool

    constructor (exitsAt: Option<real>, reap: real)
      ensures this.exitsAt == exitsAt && this.reap == reap && !signalled
    {
      this.exitsAt, this.reap := exitsAt, reap;
      signalled := false;
    }
  }

  /** `time.monotonic()`, the time spent in graceful waits, what was done, in order, and when each kill was. */
  class Clock {
    var now: real
    ghost var waited: real
    ghost var log: seq<Act>
    ghost var killedAt: map<nat, real>

    constructor (now: real)
      ensures this.now == now && waited == 0.0 && log == [] && killedAt == map[]
    {
      this.now, waited, log, killedAt := now, 0.0, [], map[];
    }
  }

  function Max(a: real, b: real): real { if a > b then a else b }

  /** The lane ends of itself no later than `time`. */
  predicate EndsBy(child: Child, time: real) {
    child.exitsAt.Some? && child.exitsAt.value <= time
  }

  /** The lane is over: it ended of itself, or was killed and waited for. */
  ghost predicate Over(child: Child, index: nat, killedAt: map<nat, real>, now: real) {
    if index in killedAt then now >= killedAt[index] + child.reap else EndsBy(child, now)
  }

  /** A kill comes after the whole grace, to a lane that still runs. */
  ghost predicate KillIsDue(child: Child, index: nat, killedAt: map<nat, real>, deadline: real) {
    index in killedAt ==> killedAt[index] >= deadline && !EndsBy(child, killedAt[index])
  }

  /** `finish_stop`: wait out what is left of the shared grace, then kill. */
  method FinishStop(child: Child, index: nat, deadline: real, clock: Clock)
    requires child.reap >= 0.0 && index !in clock.killedAt
    modifies clock
    ensures Over(child, index, clock.killedAt, clock.now) && KillIsDue(child, index, clock.killedAt, deadline)
    ensures index in clock.killedAt <==> !EndsBy(child, Max(deadline, old(clock.now)))
    ensures clock.killedAt - {index} == old(clock.killedAt)
    ensures clock.now >= old(clock.now)
    ensures clock.waited - old(clock.waited) >= 0.0
    ensures clock.waited - old(clock.waited) <= Max(0.0, deadline - old(clock.now))
    ensures clock.now - old(clock.now) >= clock.waited - old(clock.waited)
    ensures clock.now - old(clock.now) <= clock.waited - old(clock.waited) + child.reap
    ensures clock.log == old(clock.log) + [Await(index)] + if index in clock.killedAt then [Kill(index)] else []
  {
    var timeout := Max(0.0, deadline - clock.now);
    clock.log := clock.log + [Await(index)];
    if EndsBy(child, clock.now + timeout) {
      var spent := Max(0.0, child.exitsAt.value - clock.now);
      clock.now, clock.waited := clock.now + spent, clock.waited + spent;
    } else {
      clock.now, clock.waited := clock.now + timeout, clock.waited + timeout;
      clock.log, clock.killedAt := clock.log + [Kill(index)], clock.killedAt[index := clock.now];
      clock.now := clock.now + child.reap;
    }
  }

  function Signals(n: nat): seq<Act> { seq(n, i requires 0 <= i < n => Signal(i)) }

  ghost predicate NoSignals(log: seq<Act>) {
    forall i :: 0 <= i < |log| ==> !log[i].Signal?
  }

  ghost function ReapTime(children: seq<Child>): real {
    if children == [] then 0.0 else ReapTime(children[..|children| - 1]) + children[|children| - 1].reap
  }

  /**
   Every lane is signalled first, in order; no signal comes after a wait began; at most one grace
   is spent waiting, over any number of lanes. At the end every lane is over: it ended of itself by
   now, or it was killed, after the whole grace and while it ran, and waited for. So a lane that ends
   within the grace is never killed, and one that never ends is.
   */
  method StopLanes(children: seq<Child>, clock: Clock)
    requires forall i :: 0 <= i < |children| ==> children[i].reap >= 0.0
    requires clock.log == [] && clock.killedAt == map[] && clock.waited == 0.0
    modifies set i | 0 <= i < |children| :: children[i]
    modifies clock
    ensures forall i :: 0 <= i < |children| ==> children[i].signalled
    ensures forall i :: 0 <= i < |children| ==> Over(children[i], i, clock.killedAt, clock.now)
    ensures forall i :: 0 <= i < |children| ==> KillIsDue(children[i], i, clock.killedAt, old(clock.now) + GRACE)
    ensures |clock.log| >= |children| && clock.log[..|children|] == Signals(|children|)
    ensures NoSignals(clock.log[|children|..])
    ensures clock.waited <= GRACE
    ensures clock.now - old(clock.now) <= GRACE + ReapTime(children)
    ensures forall i: nat :: Kill(i) in clock.log <==> i in clock.killedAt
    ensures forall i :: 0 <= i < |children| && Kill(i) !in clock.log ==> EndsBy(children[i], clock.now)
    ensures forall i :: 0 <= i < |children| && EndsBy(children[i], old(clock.now) + GRACE) ==> Kill(i) !in clock.log
    ensures forall i :: 0 <= i < |children| && children[i].exitsAt.None? ==> Kill(i) in clock.log
  {
    for i := 0 to |children|
      invariant forall j :: 0 <= j < i ==> children[j].signalled
      invariant clock.now == old(clock.now) && clock.waited == 0.0 && clock.killedAt == map[]
      invariant clock.log == Signals(i)
    {
      children[i].signalled := true;
      clock.log := clock.log + [Signal(i)];
    }
    var deadline := clock.now + GRACE;
    ghost var later: seq<Act> := [];
    for i := 0 to |children|
      invariant forall j :: 0 <= j < |children| ==> children[j].signalled
      invariant clock.log == Signals(|children|) + later && NoSignals(later)
      invariant 0.0 <= clock.waited <= GRACE && clock.now - old(clock.now) >= clock.waited
      invariant clock.now - old(clock.now) <= clock.waited + ReapTime(children[..i])
      invariant forall j: nat :: Kill(j) in later <==> j in clock.killedAt
      invariant forall j: nat :: j in clock.killedAt ==> j < i
      invariant forall j :: 0 <= j < i ==> Over(children[j], j, clock.killedAt, clock.now)
      invariant forall j :: 0 <= j < i ==> KillIsDue(children[j], j, clock.killedAt, deadline)
    {
      ghost var before := clock.killedAt;
      FinishStop(children[i], i, deadline, clock);
      assert forall j: nat :: j != i ==> (j in clock.killedAt <==> j in before) by {
        assert before == clock.killedAt - {i};
      }
      assert forall j: nat :: j in before ==> clock.killedAt[j] == before[j] by {
        assert before == clock.killedAt - {i};
      }
      ghost var acts := [Await(i)] + if i in clock.killedAt then [Kill(i)] else [];
      assert clock.log == Signals(|children|) + (later + acts);
      later := later + acts;
      assert children[..i + 1][..i] == children[..i];
    }
    assert children[..|children|] == children;
  }
}

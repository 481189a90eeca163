/**
 The runs of the lanes in time. `start_run` allows one run of a source at once, so a run that
 starts beside another of its source is refused; what the load gives then depends on the clock.
 */
module LaneSchedules {
  import opened Wrappers
  import opened Sorting
  import opened Lanes
  import opened LaneLoad
  import opened LaneRepeats

  datatype Times = Times(start: Given -> real, finish: Given -> real)

  predicate IsRun(end: RunEnd) { end == Completed || end == RunFailed }

  /** A child runs its sources one after another. */
  ghost predicate InTurn(lane: seq<Given>, t: Times) {
    && (forall i :: 0 <= i < |lane| ==> t.start(lane[i]) <= t.finish(lane[i]))
    && (forall i, j :: 0 <= i < j < |lane| ==> t.finish(lane[i]) <= t.start(lane[j]))
  }

  /** The child comes to the source: nothing before it ends the process. */
  ghost predicate ReachedAt(lane: seq<Given>, own: Given -> RunEnd, i: nat, g: Given) {
    i < |lane| && lane[i] == g && forall j :: 0 <= j < i ==> own(lane[j]) != Invalid
  }

  /** A child that is not refused runs it. */
  ghost predicate Reached(children: seq<Lane<Given>>, isNews: string -> bool, own: Given -> RunEnd, g: Given) {
    exists k, i ::
      0 <= k < |children| && EveryIsNews(children[k].sources, isNews) && ReachedAt(children[k].sources, own, i, g)
  }

  /** The run of `p` is on when `g` starts. */
  ghost predicate Refuses(
    children: seq<Lane<Given>>, isNews: string -> bool, own: Given -> RunEnd, ended: Given -> RunEnd, t: Times,
    p: Given, g: Given)
  {
    && p != g && p.source == g.source && Reached(children, isNews, own, p) && IsRun(ended(p))
    && t.start(p) <= t.start(g) < t.finish(p)
  }

  ghost predicate Refused(
    children: seq<Lane<Given>>, isNews: string -> bool, own: Given -> RunEnd, ended: Given -> RunEnd, t: Times, g: Given)
  {
    exists p :: Refuses(children, isNews, own, ended, t, p, g)
  }

  /**
   `own`: what each source given comes to when its load is not refused. `ended`: what it comes to
   in the lanes, if its child runs it.
   */
  ghost predicate Schedule(
    children: seq<Lane<Given>>, isNews: string -> bool, own: Given -> RunEnd, ended: Given -> RunEnd, t: Times)
  {
    && (forall k :: 0 <= k < |children| ==> InTurn(children[k].sources, t))
    && (forall g :: g in Flatten(children) ==>
          ended(g) == if IsRun(own(g)) && Refused(children, isNews, own, ended, t, g) then AlreadyRunning else own(g))
  }

  ghost predicate NoRepeats(sources: seq<string>) {
    forall i, j :: 0 <= i < j < |sources| ==> sources[i] != sources[j]
  }

  // Where a source given stands

  lemma GivenAt(sources: seq<string>, g: Given)
    ensures g in Givens(sources) <==> g.place < |sources| && sources[g.place] == g.source
  {
    if g.place < |sources| && sources[g.place] == g.source { assert Givens(sources)[g.place] == g; }
  }

  lemma GivensDiffer(sources: seq<string>, g: Given)
    ensures multiset(Givens(sources))[g] <= 1
  {
    DistinctCountsOnce(Givens(sources), g);
  }

  /** How often something stands in a lane. */
  ghost function CountIn(lane: Lane<Given>, g: Given): nat { multiset(lane.sources)[g] }

  lemma {:induction false} LaneIsPart(lanes: seq<Lane<Given>>, k: nat, g: Given)
    requires k < |lanes|
    ensures CountIn(lanes[k], g) <= multiset(Flatten(lanes))[g]
  {
    if k < |lanes| - 1 { LaneIsPart(lanes[..|lanes| - 1], k, g); }
  }

  lemma {:induction false} TwoLanesArePart(lanes: seq<Lane<Given>>, k: nat, m: nat, g: Given)
    requires k < m < |lanes|
    ensures CountIn(lanes[k], g) + CountIn(lanes[m], g) <= multiset(Flatten(lanes))[g]
  {
    var before := lanes[..|lanes| - 1];
    if m < |before| { TwoLanesArePart(before, k, m, g); } else { LaneIsPart(before, k, g); }
  }

  lemma InOneLane(lanes: seq<Lane<Given>>, sources: seq<string>, g: Given, k: nat, m: nat)
    requires Deals(lanes, sources) && k < m < |lanes|
    ensures !(g in lanes[k].sources && g in lanes[m].sources)
  {
    TwoLanesArePart(lanes, k, m, g);
    GivensDiffer(sources, g);
    assert g in lanes[k].sources ==> CountIn(lanes[k], g) >= 1;
    assert g in lanes[m].sources ==> CountIn(lanes[m], g) >= 1;
  }

  lemma OncePerLane(lanes: seq<Lane<Given>>, sources: seq<string>, k: nat, i: nat, j: nat)
    requires Deals(lanes, sources) && k < |lanes| && i < j < |lanes[k].sources|
    ensures lanes[k].sources[i] != lanes[k].sources[j]
  {
    var lane := lanes[k].sources;
    if lane[i] == lane[j] {
      DuplicateCountsTwice(lane, i, j);
      LaneIsPart(lanes, k, lane[i]);
      GivensDiffer(sources, lane[i]);
    }
  }

  // Different sources: the clock does not matter

  lemma OfOneSource(sources: seq<string>, a: Given, b: Given)
    requires NoRepeats(sources) && a in Givens(sources) && b in Givens(sources) && a.source == b.source
    ensures a == b
  {
    GivenAt(sources, a);
    GivenAt(sources, b);
  }

  lemma ReachedIsGiven(
    lanes: seq<Lane<Given>>, sources: seq<string>, isNews: string -> bool, own: Given -> RunEnd, p: Given)
    requires Deals(lanes, sources) && Reached(Children(lanes), isNews, own, p)
    ensures p in Flatten(Children(lanes)) && p in Givens(sources)
  {
    var children := Children(lanes);
    var k, i :| 0 <= k < |children| && ReachedAt(children[k].sources, own, i, p);
    InSomeLane(children, p);
    ChildrenLoadOfLanes(lanes, p);
    GivenIsDealt(lanes, sources, p);
  }

  lemma DifferentAreLoadedOnce(lanes: seq<Lane<Given>>, sources: seq<string>)
    requires Deals(lanes, sources) && NoRepeats(sources)
    ensures EachOnce(lanes)
  {
    forall k | 0 <= k < |lanes|
      ensures FirstEach(lanes[k].sources) == lanes[k].sources
    {
      var lane := lanes[k].sources;
      forall i, j | 0 <= i < j < |lane|
        ensures lane[i].source != lane[j].source
      {
        OncePerLane(lanes, sources, k, i, j);
        InSomeLane(lanes, lane[i]);
        InSomeLane(lanes, lane[j]);
        GivenIsDealt(lanes, sources, lane[i]);
        GivenIsDealt(lanes, sources, lane[j]);
        if lane[i].source == lane[j].source { OfOneSource(sources, lane[i], lane[j]); }
      }
      FirstEachOfDifferent(lane);
    }
  }

  lemma {:induction false} ClassCounts(givens: seq<Given>, source: string)
    ensures forall g :: multiset(Class(givens, SourceOf, source))[g] == if g.source == source then multiset(givens)[g] else 0
  {
    if givens != [] {
      ClassCounts(givens[1..], source);
      assert givens == [givens[0]] + givens[1..];
    }
  }

  lemma OneAtMost(sources: seq<string>, source: string)
    requires NoRepeats(sources)
    ensures |Class(Givens(sources), SourceOf, source)| <= 1
  {
    var given := Class(Givens(sources), SourceOf, source);
    InClass(Givens(sources), SourceOf, source);
    ClassCounts(Givens(sources), source);
    if |given| > 1 {
      assert given[0] in given && given[1] in given;
      OfOneSource(sources, given[0], given[1]);
      DuplicateCountsTwice(given, 0, 1);
      GivensDiffer(sources, given[0]);
    }
  }

  lemma SingleByMultiset(a: seq<Given>, b: seq<Given>)
    requires multiset(a) == multiset(b) && |b| <= 1
    ensures a == b
  {
    assert |multiset(a)| == |a| && |multiset(b)| == |b|;
    if |b| == 1 { assert a[0] in multiset(b); }
  }

  lemma DifferentKeepTheirOrder(lanes: seq<Lane<Given>>, sources: seq<string>)
    requires Deals(lanes, sources) && NoRepeats(sources)
    ensures KeepsRepeats(lanes, sources)
  {
    forall source: string
      ensures Class(Flatten(lanes), SourceOf, source) == Class(Givens(sources), SourceOf, source)
    {
      var x, y := Class(Flatten(lanes), SourceOf, source), Class(Givens(sources), SourceOf, source);
      ClassCounts(Flatten(lanes), source);
      ClassCounts(Givens(sources), source);
      assert forall g :: multiset(x)[g] == multiset(y)[g];
      OneAtMost(sources, source);
      SingleByMultiset(x, y);
    }
  }

  lemma NobodyIsRefused(
    lanes: seq<Lane<Given>>, sources: seq<string>, isNews: string -> bool, own: Given -> RunEnd, ended: Given -> RunEnd,
    t: Times)
    requires Deals(lanes, sources) && NoRepeats(sources) && Schedule(Children(lanes), isNews, own, ended, t)
    ensures Agree(sources, own, ended)
  {
    DifferentAreLoadedOnce(lanes, sources);
    ChildrenAreLanes(lanes);
    forall g | g in Givens(sources)
      ensures own(g) == ended(g)
    {
      GivenIsDealt(lanes, sources, g);
      if Refused(lanes, isNews, own, ended, t, g) {
        var p :| Refuses(lanes, isNews, own, ended, t, p, g);
        ReachedIsGiven(lanes, sources, isNews, own, p);
        OfOneSource(sources, p, g);
      }
    }
  }

  /** The code of one process, and its output unless it ends early. */
  ghost predicate AsSequential(
    sources: seq<string>, lanes: seq<Lane<Given>>, isNews: string -> bool, own: Given -> RunEnd, ended: Given -> RunEnd)
  {
    && CodeInLanes(lanes, isNews, ended) == CodeOf(Givens(sources), own)
    && (Some(PrintedInLanes(sources, lanes, isNews, ended)) == Sequential(Givens(sources), own).printed
        <==> !Ends(Givens(sources), own, Invalid))
  }

  lemma SameCode(
    sources: seq<string>, lanes: seq<Lane<Given>>, isNews: string -> bool, own: Given -> RunEnd, ended: Given -> RunEnd)
    requires Deals(lanes, sources) && EachOnce(lanes) && EveryNews(sources, isNews) && Agree(sources, own, ended)
    ensures CodeInLanes(lanes, isNews, ended) == CodeOf(Givens(sources), own)
  {
    var inChild := InChild(isNews, ended);
    ChildrenAreLanes(lanes);
    CodeIsOfRuns(lanes, isNews, ended);
    forall g: Given
      ensures g in Givens(sources) <==> g in Flatten(lanes)
      ensures g in Givens(sources) ==> own(g) == inChild(g)
    {
      GivenIsDealt(lanes, sources, g);
      GivenAt(sources, g);
    }
    SameEnds(Givens(sources), Flatten(lanes), own, inChild);
  }

  /** Of news sources all different, the lanes give what one process gives, whenever their runs start and end. */
  lemma DifferentSourcesAgree(
    lanes: seq<Lane<Given>>, sources: seq<string>, isNews: string -> bool, own: Given -> RunEnd, ended: Given -> RunEnd,
    t: Times)
    requires Deals(lanes, sources) && NoRepeats(sources) && EveryNews(sources, isNews)
    requires Schedule(Children(lanes), isNews, own, ended, t)
    ensures AsSequential(sources, lanes, isNews, own, ended)
  {
    NobodyIsRefused(lanes, sources, isNews, own, ended, t);
    DifferentAreLoadedOnce(lanes, sources);
    DifferentKeepTheirOrder(lanes, sources);
    DifferentAreGrouped(sources);
    ParallelPrintsSequentialIff(sources, lanes, isNews, own, ended);
    SameCode(sources, lanes, isNews, own, ended);
  }

  lemma DifferentAreGrouped(sources: seq<string>)
    requires NoRepeats(sources)
    ensures Grouped(sources)
  {
  }
}

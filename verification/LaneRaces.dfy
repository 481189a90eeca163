/**
 A source given twice, or one that is not news: for every dealing that has one there are outcomes
 and times for which the lanes exit with another code, and print something else, than one process
 would.
 */
module LaneRaces {
  import opened Wrappers
  import opened Lanes
  import opened LaneLoad
  import opened LaneRepeats
  import opened LaneSchedules

  ghost predicate Ascends(givens: seq<Given>) {
    forall i, j :: 0 <= i < j < |givens| ==> givens[i].place < givens[j].place
  }

  /** A lane holds its sources in the order given. */
  ghost predicate LanesAscend(lanes: seq<Lane<Given>>) {
    forall k :: 0 <= k < |lanes| ==> Ascends(lanes[k].sources)
  }

  lemma {:induction false} FirstEachAscends(givens: seq<Given>)
    requires Ascends(givens)
    ensures Ascends(FirstEach(givens))
  {
    if givens != [] {
      var n := |givens| - 1;
      FirstEachAscends(givens[..n]);
      FirstEachIs(givens[..n]);
      forall g | g in FirstEach(givens[..n])
        ensures g.place < givens[n].place
      {
        assert g in givens[..n];
      }
    }
  }

  // A repeat within a lane is dropped

  lemma DropsOne(givens: seq<Given>) returns (g: Given)
    requires FirstEach(givens) != givens
    requires forall i, j :: 0 <= i < j < |givens| ==> givens[i] != givens[j]
    ensures g in givens && g !in FirstEach(givens)
  {
    FirstEachIs(givens);
    if forall i, j :: 0 <= i < j < |givens| ==> givens[i].source != givens[j].source {
      FirstEachOfDifferent(givens);
    }
    var i, j :| 0 <= i < j < |givens| && givens[i].source == givens[j].source;
    g := if givens[i] in FirstEach(givens) then givens[j] else givens[i];
  }

  lemma DroppedByAll(lanes: seq<Lane<Given>>, sources: seq<string>, k: nat, g: Given)
    requires Deals(lanes, sources) && k < |lanes|
    requires g in lanes[k].sources && g !in FirstEach(lanes[k].sources)
    ensures g in Givens(sources) && g !in Flatten(Children(lanes))
  {
    InSomeLane(lanes, g);
    GivenIsDealt(lanes, sources, g);
    InSomeLane(Children(lanes), g);
    if g in Flatten(Children(lanes)) {
      var m :| 0 <= m < |lanes| && g in Children(lanes)[m].sources;
      FirstEachIs(lanes[m].sources);
      if m < k { InOneLane(lanes, sources, g, m, k); }
      if k < m { InOneLane(lanes, sources, g, k, m); }
    }
  }

  /** Each run in its place of the list, over before the next place: nobody is refused. */
  function InPlaces(): Times {
    Times((g: Given) => g.place as real, (g: Given) => g.place as real + 0.5)
  }

  lemma NobodyRefusesInPlaces(
    lanes: seq<Lane<Given>>, sources: seq<string>, isNews: string -> bool, own: Given -> RunEnd, p: Given, g: Given)
    requires Deals(lanes, sources) && g in Flatten(Children(lanes))
    ensures !Refuses(Children(lanes), isNews, own, own, InPlaces(), p, g)
  {
    ChildrenLoadOfLanes(lanes, g);
    GivenIsDealt(lanes, sources, g);
    GivenAt(sources, g);
    if Refuses(Children(lanes), isNews, own, own, InPlaces(), p, g) {
      ReachedIsGiven(lanes, sources, isNews, own, p);
      GivenAt(sources, p);
    }
  }

  lemma InPlacesIsSchedule(lanes: seq<Lane<Given>>, sources: seq<string>, isNews: string -> bool, own: Given -> RunEnd)
    requires Deals(lanes, sources) && LanesAscend(lanes)
    ensures Schedule(Children(lanes), isNews, own, own, InPlaces())
  {
    var children := Children(lanes);
    forall k | 0 <= k < |children|
      ensures InTurn(children[k].sources, InPlaces())
    {
      FirstEachAscends(lanes[k].sources);
    }
    forall g, p | g in Flatten(children)
      ensures !Refuses(children, isNews, own, own, InPlaces(), p, g)
    {
      NobodyRefusesInPlaces(lanes, sources, isNews, own, p, g);
    }
  }

  lemma FailureIsLost(lanes: seq<Lane<Given>>, sources: seq<string>, isNews: string -> bool)
    returns (own: Given -> RunEnd, ended: Given -> RunEnd, t: Times)
    requires Deals(lanes, sources) && LanesAscend(lanes) && EveryNews(sources, isNews) && !EachOnce(lanes)
    ensures Schedule(Children(lanes), isNews, own, ended, t)
    ensures CodeInLanes(lanes, isNews, ended) == 0 && CodeOf(Givens(sources), own) == EXIT_FAILED
    ensures !Ends(Givens(sources), own, Invalid)
  {
    var k :| 0 <= k < |lanes| && FirstEach(lanes[k].sources) != lanes[k].sources;
    forall i, j | 0 <= i < j < |lanes[k].sources|
      ensures lanes[k].sources[i] != lanes[k].sources[j]
    {
      OncePerLane(lanes, sources, k, i, j);
    }
    var dropped := DropsOne(lanes[k].sources);
    DroppedByAll(lanes, sources, k, dropped);
    own := (g: Given) => if g == dropped then RunFailed else Completed;
    ended, t := own, InPlaces();
    InPlacesIsSchedule(lanes, sources, isNews, own);
    CodeIsOfRuns(lanes, isNews, own);
    forall g | g in Flatten(Children(lanes))
      ensures InChild(isNews, own)(g) == Completed
    {
      RunsAreNews(lanes, sources, isNews, g);
    }
    assert own(dropped) == RunFailed;
  }

  lemma RunsAreNews(lanes: seq<Lane<Given>>, sources: seq<string>, isNews: string -> bool, g: Given)
    requires Deals(lanes, sources) && EveryNews(sources, isNews) && g in Flatten(Children(lanes))
    ensures isNews(g.source)
  {
    ChildrenLoadOfLanes(lanes, g);
    GivenIsDealt(lanes, sources, g);
    GivenAt(sources, g);
  }

  // A repeat in two lanes may be refused

  /** The run of `early` stays on until `late` has started; whatever its lane has after it, comes after everything. */
  function StartAt(lane: seq<Given>, early: Given, n: nat, g: Given): nat {
    if g in lane && g.place > early.place then g.place + n else g.place
  }

  function Overlap(lane: seq<Given>, early: Given, late: Given, n: nat): Times {
    Times(
      (g: Given) => StartAt(lane, early, n, g) as real,
      (g: Given) => if g == early then late.place as real + 0.5 else StartAt(lane, early, n, g) as real + 0.5)
  }

  function AllComplete(): Given -> RunEnd { (g: Given) => Completed }

  function RefusedBetween(early: Given, late: Given): Given -> RunEnd {
    (g: Given) => if g.source == early.source && early.place < g.place <= late.place then AlreadyRunning else Completed
  }

  /** Two givens of one source, in two lanes, each of which holds the source once. */
  ghost predicate Racing(lanes: seq<Lane<Given>>, sources: seq<string>, a: nat, b: nat, early: Given, late: Given) {
    && Deals(lanes, sources) && LanesAscend(lanes) && EachOnce(lanes)
    && a < |lanes| && b < |lanes| && early in lanes[a].sources && late in lanes[b].sources
    && early.source == late.source && early.place < late.place < |sources|
  }

  lemma {:induction false} OnceOfSource(givens: seq<Given>, x: Given, y: Given)
    requires FirstEach(givens) == givens && x in givens && y in givens && x.source == y.source
    ensures x == y
  {
    FirstEachIs(givens);
  }

  lemma OthersInTurn(lane: seq<Given>, first: seq<Given>, early: Given, late: Given, n: nat)
    requires Ascends(lane) && early in first && forall g :: g in lane ==> g !in first
    ensures InTurn(lane, Overlap(first, early, late, n))
  {
    assert forall i :: 0 <= i < |lane| ==> lane[i] !in first && lane[i] != early;
  }

  lemma EarlyLaneInTurn(lane: seq<Given>, early: Given, late: Given, n: nat)
    requires Ascends(lane) && early.place < late.place < n
    ensures InTurn(lane, Overlap(lane, early, late, n))
  {
  }

  lemma OverlapIsInTurn(lanes: seq<Lane<Given>>, sources: seq<string>, a: nat, b: nat, early: Given, late: Given, k: nat)
    requires Racing(lanes, sources, a, b, early, late) && k < |lanes|
    ensures InTurn(lanes[k].sources, Overlap(lanes[a].sources, early, late, |sources|))
  {
    if k == a {
      EarlyLaneInTurn(lanes[a].sources, early, late, |sources|);
    } else {
      forall g | g in lanes[k].sources
        ensures g !in lanes[a].sources
      {
        if k < a { InOneLane(lanes, sources, g, k, a); } else { InOneLane(lanes, sources, g, a, k); }
      }
      OthersInTurn(lanes[k].sources, lanes[a].sources, early, late, |sources|);
    }
  }

  lemma EarlyIsReached(lanes: seq<Lane<Given>>, sources: seq<string>, isNews: string -> bool, a: nat, b: nat, early: Given, late: Given)
    requires Racing(lanes, sources, a, b, early, late) && EveryNews(sources, isNews)
    ensures Reached(lanes, isNews, AllComplete(), early)
  {
    var i :| 0 <= i < |lanes[a].sources| && lanes[a].sources[i] == early;
    forall g | g in lanes[a].sources
      ensures isNews(g.source)
    {
      StandsInLane(lanes, sources, a, g);
      GivenAt(sources, g);
    }
    assert ReachedAt(lanes[a].sources, AllComplete(), i, early);
  }

  lemma EarlyRefuses(
    lanes: seq<Lane<Given>>, sources: seq<string>, isNews: string -> bool, a: nat, b: nat, early: Given, late: Given, g: Given)
    requires Racing(lanes, sources, a, b, early, late) && EveryNews(sources, isNews)
    requires RefusedBetween(early, late)(g) == AlreadyRunning
    ensures Refused(lanes, isNews, AllComplete(), RefusedBetween(early, late), Overlap(lanes[a].sources, early, late, |sources|), g)
  {
    EarlyIsReached(lanes, sources, isNews, a, b, early, late);
    if g in lanes[a].sources { OnceOfSource(lanes[a].sources, early, g); }
    assert Refuses(lanes, isNews, AllComplete(), RefusedBetween(early, late),
                   Overlap(lanes[a].sources, early, late, |sources|), early, g);
  }

  lemma NobodyElseRefuses(
    lanes: seq<Lane<Given>>, sources: seq<string>, isNews: string -> bool, a: nat, b: nat, early: Given, late: Given, g: Given, p: Given)
    requires Racing(lanes, sources, a, b, early, late) && EveryNews(sources, isNews)
    requires g in Flatten(lanes) && RefusedBetween(early, late)(g) != AlreadyRunning
    ensures !Refuses(lanes, isNews, AllComplete(), RefusedBetween(early, late),
                     Overlap(lanes[a].sources, early, late, |sources|), p, g)
  {
    var lane, t := lanes[a].sources, Overlap(lanes[a].sources, early, late, |sources|);
    if Refuses(lanes, isNews, AllComplete(), RefusedBetween(early, late), t, p, g) {
      ChildrenAreLanes(lanes);
      ReachedIsGiven(lanes, sources, isNews, AllComplete(), p);
      GivenIsDealt(lanes, sources, g);
      GivenAt(sources, p);
      GivenAt(sources, g);
      if p == early && g in lane { OnceOfSource(lane, early, g); }
    }
  }

  lemma RaceIsSchedule(lanes: seq<Lane<Given>>, sources: seq<string>, isNews: string -> bool, a: nat, b: nat, early: Given, late: Given)
    requires Racing(lanes, sources, a, b, early, late) && EveryNews(sources, isNews)
    ensures Schedule(lanes, isNews, AllComplete(), RefusedBetween(early, late), Overlap(lanes[a].sources, early, late, |sources|))
  {
    var own, ended, t := AllComplete(), RefusedBetween(early, late), Overlap(lanes[a].sources, early, late, |sources|);
    forall k | 0 <= k < |lanes|
      ensures InTurn(lanes[k].sources, t)
    {
      OverlapIsInTurn(lanes, sources, a, b, early, late, k);
    }
    forall g | g in Flatten(lanes)
      ensures Refused(lanes, isNews, own, ended, t, g) <==> ended(g) == AlreadyRunning
    {
      RefusedIffBetween(lanes, sources, isNews, a, b, early, late, g);
    }
  }

  lemma RefusedIffBetween(
    lanes: seq<Lane<Given>>, sources: seq<string>, isNews: string -> bool, a: nat, b: nat, early: Given, late: Given, g: Given)
    requires Racing(lanes, sources, a, b, early, late) && EveryNews(sources, isNews) && g in Flatten(lanes)
    ensures Refused(lanes, isNews, AllComplete(), RefusedBetween(early, late), Overlap(lanes[a].sources, early, late, |sources|), g)
            <==> RefusedBetween(early, late)(g) == AlreadyRunning
  {
    if RefusedBetween(early, late)(g) == AlreadyRunning {
      EarlyRefuses(lanes, sources, isNews, a, b, early, late, g);
    } else {
      forall p
        ensures !Refuses(lanes, isNews, AllComplete(), RefusedBetween(early, late),
                         Overlap(lanes[a].sources, early, late, |sources|), p, g)
      {
        NobodyElseRefuses(lanes, sources, isNews, a, b, early, late, g, p);
      }
    }
  }

  lemma OneRefused(runs: seq<Given>, early: Given, late: Given)
    requires late in runs && early.source == late.source && early.place < late.place
    ensures CodeOf(runs, RefusedBetween(early, late)) == EXIT_ALREADY_RUNNING
  {
    assert RefusedBetween(early, late)(late) == AlreadyRunning;
  }

  lemma NoneRefused(runs: seq<Given>)
    ensures CodeOf(runs, AllComplete()) == 0
  {
  }

  lemma StandsInLane(lanes: seq<Lane<Given>>, sources: seq<string>, k: nat, g: Given)
    requires Deals(lanes, sources) && k < |lanes| && g in lanes[k].sources
    ensures g in Flatten(lanes) && g in Givens(sources)
  {
    InSomeLane(lanes, g);
    GivenIsDealt(lanes, sources, g);
  }

  lemma RunIsRefused(
    lanes: seq<Lane<Given>>, sources: seq<string>, isNews: string -> bool, a: nat, b: nat, early: Given, late: Given)
    returns (own: Given -> RunEnd, ended: Given -> RunEnd, t: Times)
    requires Racing(lanes, sources, a, b, early, late) && EveryNews(sources, isNews)
    ensures Schedule(Children(lanes), isNews, own, ended, t)
    ensures CodeInLanes(lanes, isNews, ended) == EXIT_ALREADY_RUNNING && CodeOf(Givens(sources), own) == 0
    ensures !Ends(Givens(sources), own, Invalid) && !Agree(sources, own, ended)
  {
    own, ended, t := AllComplete(), RefusedBetween(early, late), Overlap(lanes[a].sources, early, late, |sources|);
    ChildrenAreLanes(lanes);
    RaceIsSchedule(lanes, sources, isNews, a, b, early, late);
    StandsInLane(lanes, sources, b, late);
    OneRefused(Flatten(lanes), early, late);
    NoneRefused(Givens(sources));
    CodeOfNewsRuns(lanes, sources, isNews, ended);
    assert own(late) == Completed && ended(late) == AlreadyRunning;
  }

  lemma CodeOfNewsRuns(lanes: seq<Lane<Given>>, sources: seq<string>, isNews: string -> bool, ended: Given -> RunEnd)
    requires Deals(lanes, sources) && EveryNews(sources, isNews) && EachOnce(lanes)
    ensures CodeInLanes(lanes, isNews, ended) == CodeOf(Flatten(lanes), ended)
  {
    ChildrenAreLanes(lanes);
    CodeIsOfRuns(lanes, isNews, ended);
    forall g | g in Flatten(lanes)
      ensures ended(g) == InChild(isNews, ended)(g)
    {
      RunsAreNews(lanes, sources, isNews, g);
    }
    SameEnds(Flatten(lanes), Flatten(lanes), ended, InChild(isNews, ended));
  }

  // Exactly when the lanes can be told apart from one process

  /** Whatever the sources come to and whenever they run, the lanes give what one process gives. */
  ghost predicate AlwaysAsSequential(sources: seq<string>, lanes: seq<Lane<Given>>, isNews: string -> bool) {
    forall own: Given -> RunEnd, ended: Given -> RunEnd, t: Times ::
      Schedule(Children(lanes), isNews, own, ended, t) ==> AsSequential(sources, lanes, isNews, own, ended)
  }

  lemma FindRace(sources: seq<string>, lanes: seq<Lane<Given>>) returns (a: nat, b: nat, early: Given, late: Given)
    requires Deals(lanes, sources) && LanesAscend(lanes) && EachOnce(lanes) && !NoRepeats(sources)
    ensures Racing(lanes, sources, a, b, early, late)
  {
    var i, j :| 0 <= i < j < |sources| && sources[i] == sources[j];
    early, late := Given(sources[i], i), Given(sources[j], j);
    GivenAt(sources, early);
    GivenAt(sources, late);
    GivenIsDealt(lanes, sources, early);
    GivenIsDealt(lanes, sources, late);
    InSomeLane(lanes, early);
    InSomeLane(lanes, late);
    a :| 0 <= a < |lanes| && early in lanes[a].sources;
    b :| 0 <= b < |lanes| && late in lanes[b].sources;
  }

  /**
   A source that is not news, or is given twice, shows: some outcomes and times give the lanes
   another exit code than one process has, and another output, though no source ends the process.
   */
  lemma OtherCanShow(sources: seq<string>, lanes: seq<Lane<Given>>, isNews: string -> bool)
    returns (own: Given -> RunEnd, ended: Given -> RunEnd, t: Times)
    requires Deals(lanes, sources) && LanesAscend(lanes) && !(NoRepeats(sources) && EveryNews(sources, isNews))
    ensures Schedule(Children(lanes), isNews, own, ended, t) && !Ends(Givens(sources), own, Invalid)
    ensures CodeInLanes(lanes, isNews, ended) != CodeOf(Givens(sources), own)
    ensures Some(PrintedInLanes(sources, lanes, isNews, ended)) != Sequential(Givens(sources), own).printed
  {
    if !EveryNews(sources, isNews) {
      own, ended, t := AllComplete(), AllComplete(), InPlaces();
      InPlacesIsSchedule(lanes, sources, isNews, own);
      OtherThanNewsFails(sources, lanes, isNews, ended);
      NoneRefused(Givens(sources));
    } else if EachOnce(lanes) {
      var a, b, early, late := FindRace(sources, lanes);
      own, ended, t := RunIsRefused(lanes, sources, isNews, a, b, early, late);
    } else {
      own, ended, t := FailureIsLost(lanes, sources, isNews);
    }
    ParallelPrintsSequentialIff(sources, lanes, isNews, own, ended);
  }

  /** The lanes always give what one process gives exactly when every source is news and none is given twice. */
  lemma ParallelIsSequentialIff(sources: seq<string>, lanes: seq<Lane<Given>>, isNews: string -> bool)
    requires Deals(lanes, sources) && LanesAscend(lanes)
    ensures AlwaysAsSequential(sources, lanes, isNews) <==> NoRepeats(sources) && EveryNews(sources, isNews)
  {
    if NoRepeats(sources) && EveryNews(sources, isNews) {
      forall own: Given -> RunEnd, ended: Given -> RunEnd, t: Times | Schedule(Children(lanes), isNews, own, ended, t)
        ensures AsSequential(sources, lanes, isNews, own, ended)
      {
        DifferentSourcesAgree(lanes, sources, isNews, own, ended, t);
      }
    } else {
      var own, ended, t := OtherCanShow(sources, lanes, isNews);
      assert !AsSequential(sources, lanes, isNews, own, ended);
    }
  }
}

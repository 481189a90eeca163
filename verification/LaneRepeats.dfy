/**
 When the load in lanes gives what one process would have given. A lane with a source that is not
 news is refused. For a source given twice the lanes change three things: a child drops the repeats
 within its lane, repeats in two lanes may come out in another order, and a run started beside one
 of the same source is refused.
 */
module LaneRepeats {
  import opened Wrappers
  import opened Sorting
  import opened Lanes
  import opened LaneLoad

  /** Every source given is in some lane, each as often as it was given. */
  ghost predicate Deals(lanes: seq<Lane<Given>>, sources: seq<string>) {
    multiset(Flatten(lanes)) == multiset(Givens(sources))
  }

  /** No lane holds a source twice. */
  ghost predicate EachOnce(lanes: seq<Lane<Given>>) {
    forall k :: 0 <= k < |lanes| ==> FirstEach(lanes[k].sources) == lanes[k].sources
  }

  /** Lane after lane, the repeats of each source come in the order given. */
  ghost predicate KeepsRepeats(lanes: seq<Lane<Given>>, sources: seq<string>) {
    SameClasses(Flatten(lanes), Givens(sources), SourceOf)
  }

  /** What each source comes to, in the one load and in the other. */
  ghost predicate Agree(sources: seq<string>, own: Given -> RunEnd, ended: Given -> RunEnd) {
    forall g :: g in Givens(sources) ==> own(g) == ended(g)
  }

  ghost predicate EveryNews(sources: seq<string>, isNews: string -> bool) {
    forall i :: 0 <= i < |sources| ==> isNews(sources[i])
  }

  ghost function PrintedInLanes(
    sources: seq<string>, lanes: seq<Lane<Given>>, isNews: string -> bool, ended: Given -> RunEnd): seq<Result>
  {
    Sort(ChildResults(lanes, isNews, ended), ByPosition(sources))
  }

  ghost function CodeInLanes(lanes: seq<Lane<Given>>, isNews: string -> bool, ended: Given -> RunEnd): int {
    MergeExitCodes(ChildCodes(lanes, isNews, ended))
  }

  /** What lanes that are not refused print. */
  ghost function Merged(sources: seq<string>, lanes: seq<Lane<Given>>, ended: Given -> RunEnd): seq<Result> {
    Sort(LaneResults(Children(lanes), ended), ByPosition(sources))
  }

  // What the children load

  lemma {:induction false} FirstEachShrinks(givens: seq<Given>)
    ensures |FirstEach(givens)| <= |givens|
    ensures |FirstEach(givens)| == |givens| ==> FirstEach(givens) == givens
  {
    if givens != [] {
      FirstEachShrinks(givens[..|givens| - 1]);
      assert givens == givens[..|givens| - 1] + [givens[|givens| - 1]];
    }
  }

  lemma {:induction false} FirstEachIs(givens: seq<Given>)
    ensures forall g :: g in FirstEach(givens) ==> g in givens
    ensures forall i, j :: 0 <= i < j < |FirstEach(givens)| ==> FirstEach(givens)[i].source != FirstEach(givens)[j].source
  {
    if givens != [] {
      var n := |givens| - 1;
      FirstEachIs(givens[..n]);
      assert givens == givens[..n] + [givens[n]];
    }
  }

  /** A list without repeats is loaded whole. */
  lemma {:induction false} FirstEachOfDifferent(givens: seq<Given>)
    requires forall i, j :: 0 <= i < j < |givens| ==> givens[i].source != givens[j].source
    ensures FirstEach(givens) == givens
  {
    if givens != [] {
      var n := |givens| - 1;
      FirstEachOfDifferent(givens[..n]);
      assert givens == givens[..n] + [givens[n]];
    }
  }

  lemma LastChild(lanes: seq<Lane<Given>>)
    requires lanes != []
    ensures
      var n := |lanes| - 1;
      Flatten(Children(lanes)) == Flatten(Children(lanes[..n])) + FirstEach(lanes[n].sources)
  {
    assert Children(lanes)[..|lanes| - 1] == Children(lanes[..|lanes| - 1]);
  }

  lemma {:induction false} ChildrenLoadOfLanes(lanes: seq<Lane<Given>>, g: Given)
    ensures g in Flatten(Children(lanes)) ==> g in Flatten(lanes)
  {
    if lanes == [] {
      assert Children(lanes) == [];
    } else {
      LastChild(lanes);
      ChildrenLoadOfLanes(lanes[..|lanes| - 1], g);
      FirstEachIs(lanes[|lanes| - 1].sources);
    }
  }

  lemma {:induction false} ChildrenShrink(lanes: seq<Lane<Given>>)
    ensures |Flatten(Children(lanes))| <= |Flatten(lanes)|
  {
    if lanes == [] {
      assert Children(lanes) == [];
    } else {
      LastChild(lanes);
      ChildrenShrink(lanes[..|lanes| - 1]);
      FirstEachShrinks(lanes[|lanes| - 1].sources);
    }
  }

  lemma {:induction false} NoneDropped(lanes: seq<Lane<Given>>, k: nat)
    requires k < |lanes| && |Flatten(Children(lanes))| == |Flatten(lanes)|
    ensures FirstEach(lanes[k].sources) == lanes[k].sources
  {
    var n := |lanes| - 1;
    LastChild(lanes);
    ChildrenShrink(lanes[..n]);
    FirstEachShrinks(lanes[n].sources);
    if k < n { NoneDropped(lanes[..n], k); }
  }

  lemma ChildrenAreLanes(lanes: seq<Lane<Given>>)
    requires EachOnce(lanes)
    ensures Children(lanes) == lanes
  {
  }

  lemma GivenIsDealt(lanes: seq<Lane<Given>>, sources: seq<string>, g: Given)
    requires Deals(lanes, sources)
    ensures g in Flatten(lanes) <==> g in Givens(sources)
    ensures |Flatten(lanes)| == |sources|
  {
    assert g in multiset(Flatten(lanes)) <==> g in multiset(Givens(sources));
    assert |multiset(Flatten(lanes))| == |Flatten(lanes)|;
    assert |multiset(Givens(sources))| == |sources|;
  }

  // What is printed

  function ResultSource(r: Result): string { r.given.source }

  lemma {:induction false} ResultClasses(givens: seq<Given>, end: Given -> RunEnd, source: string)
    ensures Class(ResultsOf(givens, end), ResultSource, source) == ResultsOf(Class(givens, SourceOf, source), end)
  {
    if givens != [] {
      assert ResultsOf(givens, end)[1..] == ResultsOf(givens[1..], end);
      ResultClasses(givens[1..], end, source);
    }
  }

  lemma ResultsTellGivens(a: seq<Given>, b: seq<Given>, own: Given -> RunEnd, ended: Given -> RunEnd)
    requires ResultsOf(a, own) == ResultsOf(b, ended)
    ensures a == b && forall g :: g in a ==> own(g) == ended(g)
  {
    assert |a| == |ResultsOf(a, own)| == |b|;
    forall i | 0 <= i < |a|
      ensures a[i] == b[i] && own(a[i]) == ended(a[i])
    {
      assert ResultsOf(a, own)[i] == ResultsOf(b, ended)[i];
    }
  }

  /** If the load in lanes prints a result of every source given, no child dropped or lost one. */
  lemma AllPrintedAllRan(sources: seq<string>, lanes: seq<Lane<Given>>, own: Given -> RunEnd, ended: Given -> RunEnd)
    requires Deals(lanes, sources) && Merged(sources, lanes, ended) == ResultsOf(Givens(sources), own)
    ensures EachOnce(lanes) && Agree(sources, own, ended)
  {
    var givens, results := Givens(sources), LaneResults(Children(lanes), ended);
    var printed := Merged(sources, lanes, ended);
    ResultsAreOfRuns(Children(lanes), ended);
    ChildrenShrink(lanes);
    forall g | g in givens
      ensures own(g) == ended(g)
    {
      var i :| 0 <= i < |givens| && givens[i] == g;
      assert printed[i] == Result(g, own(g));
      assert printed[i] in multiset(results);
    }
    if givens != [] { GivenIsDealt(lanes, sources, givens[0]); } else { assert |multiset(Flatten(lanes))| == |Flatten(lanes)|; }
    assert |printed| == |results|;
    forall k | 0 <= k < |lanes|
      ensures FirstEach(lanes[k].sources) == lanes[k].sources
    {
      NoneDropped(lanes, k);
    }
  }

  lemma NoInvalidInLanes(sources: seq<string>, lanes: seq<Lane<Given>>, own: Given -> RunEnd, ended: Given -> RunEnd)
    requires Deals(lanes, sources) && Agree(sources, own, ended) && !Ends(Givens(sources), own, Invalid)
    ensures forall k :: 0 <= k < |lanes| ==> !Ends(lanes[k].sources, ended, Invalid)
  {
    forall k | 0 <= k < |lanes|
      ensures !Ends(lanes[k].sources, ended, Invalid)
    {
      if s :| s in lanes[k].sources && ended(s) == Invalid {
        InSomeLane(lanes, s);
        GivenIsDealt(lanes, sources, s);
      }
    }
  }

  lemma SameSourceIsOnePlace(sources: seq<string>, end: Given -> RunEnd, a: Result, b: Result)
    requires a in ResultsOf(Givens(sources), end) && b in ResultsOf(Givens(sources), end)
    requires Position(sources, a.given.source) == Position(sources, b.given.source)
    ensures a.given.source == b.given.source
  {
    var i :| 0 <= i < |sources| && ResultsOf(Givens(sources), end)[i] == a;
    var j :| 0 <= j < |sources| && ResultsOf(Givens(sources), end)[j] == b;
    PositionIsLast(sources, i);
    PositionIsLast(sources, j);
  }

  lemma ResultsPermute(a: seq<Given>, b: seq<Given>, end: Given -> RunEnd, r: Result)
    requires multiset(a) == multiset(b) && r in ResultsOf(a, end)
    ensures r in ResultsOf(b, end)
  {
    var i :| 0 <= i < |a| && ResultsOf(a, end)[i] == r;
    assert a[i] in multiset(b);
    var j :| 0 <= j < |b| && b[j] == a[i];
    assert ResultsOf(b, end)[j] == r;
  }

  lemma ClassesPrint(sources: seq<string>, lanes: seq<Lane<Given>>, end: Given -> RunEnd)
    ensures SameClasses(Sort(ResultsOf(Flatten(lanes), end), ByPosition(sources)), ResultsOf(Givens(sources), end), ResultSource)
            <==> KeepsRepeats(lanes, sources)
  {
    var runs, givens, le := Flatten(lanes), Givens(sources), ByPosition(sources);
    var sorted := Sort(ResultsOf(runs, end), le);
    forall source: string
      ensures Class(sorted, ResultSource, source) == Class(ResultsOf(givens, end), ResultSource, source)
              <==> Class(runs, SourceOf, source) == Class(givens, SourceOf, source)
    {
      SortKeepsClasses(ResultsOf(runs, end), le, ResultSource, source);
      ResultClasses(runs, end, source);
      ResultClasses(givens, end, source);
      var x, y := Class(runs, SourceOf, source), Class(givens, SourceOf, source);
      if ResultsOf(x, end) == ResultsOf(y, end) { ResultsTellGivens(x, y, end, end); }
    }
    var printed := ResultsOf(givens, end);
    if SameClasses(sorted, printed, ResultSource) {
      forall source: string
        ensures Class(runs, SourceOf, source) == Class(givens, SourceOf, source)
      {
        assert Class(sorted, ResultSource, source) == Class(printed, ResultSource, source);
      }
    }
    if KeepsRepeats(lanes, sources) {
      forall source: string
        ensures Class(sorted, ResultSource, source) == Class(printed, ResultSource, source)
      {
        assert Class(runs, SourceOf, source) == Class(givens, SourceOf, source);
      }
    }
  }

  /** Nothing dropped or refused: what is left is the order. */
  lemma SortedIsGivenIff(sources: seq<string>, lanes: seq<Lane<Given>>, end: Given -> RunEnd)
    requires Deals(lanes, sources)
    ensures Sort(ResultsOf(Flatten(lanes), end), ByPosition(sources)) == ResultsOf(Givens(sources), end)
            <==> Grouped(sources) && KeepsRepeats(lanes, sources)
  {
    var le := ByPosition(sources);
    var results := ResultsOf(Flatten(lanes), end);
    var sorted, printed := Sort(results, le), ResultsOf(Givens(sources), end);
    SortIsOrdered(results, le);
    OrderedIffGrouped(sources, end);
    ClassesPrint(sources, lanes, end);
    if Grouped(sources) && KeepsRepeats(lanes, sources) {
      forall a, b | a in sorted && b in printed && le(a, b) && le(b, a)
        ensures ResultSource(a) == ResultSource(b)
      {
        assert a in multiset(results);
        ResultsPermute(Flatten(lanes), Givens(sources), end, a);
        SameSourceIsOnePlace(sources, end, a, b);
      }
      OrderedByClasses(sorted, printed, le, ResultSource);
    }
  }

  lemma RunsAgree(sources: seq<string>, lanes: seq<Lane<Given>>, own: Given -> RunEnd, ended: Given -> RunEnd)
    requires Deals(lanes, sources) && Agree(sources, own, ended)
    ensures ResultsOf(Flatten(lanes), ended) == ResultsOf(Flatten(lanes), own)
  {
    forall i | 0 <= i < |Flatten(lanes)|
      ensures own(Flatten(lanes)[i]) == ended(Flatten(lanes)[i])
    {
      GivenIsDealt(lanes, sources, Flatten(lanes)[i]);
    }
  }

  /** Of lanes none of which is refused. */
  lemma MergedIsSequentialIff(
    sources: seq<string>, lanes: seq<Lane<Given>>, own: Given -> RunEnd, ended: Given -> RunEnd)
    requires Deals(lanes, sources)
    ensures Some(Merged(sources, lanes, ended)) == Sequential(Givens(sources), own).printed
            <==> !Ends(Givens(sources), own, Invalid) && Agree(sources, own, ended) && EachOnce(lanes)
                 && Grouped(sources) && KeepsRepeats(lanes, sources)
  {
    if Some(Merged(sources, lanes, ended)) == Sequential(Givens(sources), own).printed {
      AllPrintedAllRan(sources, lanes, own, ended);
    }
    if !Ends(Givens(sources), own, Invalid) && Agree(sources, own, ended) && EachOnce(lanes) {
      ChildrenAreLanes(lanes);
      NoInvalidInLanes(sources, lanes, own, ended);
      LaneResultsAreAll(lanes, ended);
      RunsAgree(sources, lanes, own, ended);
      SortedIsGivenIff(sources, lanes, own);
    }
  }

  lemma AgreeInChildIff(sources: seq<string>, isNews: string -> bool, own: Given -> RunEnd, ended: Given -> RunEnd)
    requires !Ends(Givens(sources), own, Invalid)
    ensures Agree(sources, own, InChild(isNews, ended)) <==> EveryNews(sources, isNews) && Agree(sources, own, ended)
  {
    var givens, inChild := Givens(sources), InChild(isNews, ended);
    if Agree(sources, own, inChild) {
      forall i | 0 <= i < |sources|
        ensures isNews(sources[i])
      {
        assert givens[i] in givens;
      }
      forall g | g in givens
        ensures own(g) == ended(g)
      {
        assert own(g) == inChild(g);
      }
    }
  }

  /**
   The load in lanes prints what the sequential load prints exactly when no source ends the
   process, every source is news and comes to the same, no lane holds a source twice, no source is
   given again after another, and the lanes keep the repeats of each source in order.
   */
  lemma ParallelPrintsSequentialIff(
    sources: seq<string>, lanes: seq<Lane<Given>>, isNews: string -> bool, own: Given -> RunEnd, ended: Given -> RunEnd)
    requires Deals(lanes, sources)
    ensures Some(PrintedInLanes(sources, lanes, isNews, ended)) == Sequential(Givens(sources), own).printed
            <==> !Ends(Givens(sources), own, Invalid) && EveryNews(sources, isNews) && Agree(sources, own, ended)
                 && EachOnce(lanes) && Grouped(sources) && KeepsRepeats(lanes, sources)
  {
    ChildResultsAre(lanes, isNews, ended);
    MergedIsSequentialIff(sources, lanes, own, InChild(isNews, ended));
    if !Ends(Givens(sources), own, Invalid) { AgreeInChildIff(sources, isNews, own, ended); }
  }

  /** The merged code is that of all the runs, a refused lane counting as one that fails. */
  lemma CodeIsOfRuns(lanes: seq<Lane<Given>>, isNews: string -> bool, ended: Given -> RunEnd)
    ensures CodeInLanes(lanes, isNews, ended) == CodeOf(Flatten(Children(lanes)), InChild(isNews, ended))
  {
    ChildCodesAre(lanes, isNews, ended);
    MergedCodeIsOfRuns(Children(lanes), InChild(isNews, ended));
  }

  /** One source that is not news, and the load in lanes fails, whatever its other sources come to. */
  lemma OtherThanNewsFails(
    sources: seq<string>, lanes: seq<Lane<Given>>, isNews: string -> bool, ended: Given -> RunEnd)
    requires Deals(lanes, sources) && !EveryNews(sources, isNews)
    ensures CodeInLanes(lanes, isNews, ended) == EXIT_FAILED
  {
    var i :| 0 <= i < |sources| && !isNews(sources[i]);
    var g := Givens(sources)[i];
    GivenIsDealt(lanes, sources, g);
    InSomeLane(lanes, g);
    var k :| 0 <= k < |lanes| && g in lanes[k].sources;
    var codes := ChildCodes(lanes, isNews, ended);
    assert !EveryIsNews(lanes[k].sources, isNews);
    assert codes[k] == EXIT_FAILED;
  }
}

/** The load of the sources, one after another in one process or in lanes, and what each prints and exits with. */
module LaneLoad {
  import opened Wrappers
  import opened Sorting
  import opened Lanes

  /** How the run of one source ends. `Invalid` is the ValueError that ends the whole process. */
  datatype RunEnd = Completed | RunFailed | AlreadyRunning | Invalid

  /** A source as it was given: its name, and its place in the list. One name may be given twice. */
  datatype Given = Given(source: string, place: nat)

  datatype Result = Result(given: Given, end: RunEnd)

  const EXIT_FAILED := 1
  const EXIT_ALREADY_RUNNING := 3

  /** What a process prints, if it comes to print at all, and its exit code. */
  datatype Finish = Finish(printed: Option<seq<Result>>, code: int)

  function Givens(sources: seq<string>): (givens: seq<Given>)
    ensures |givens| == |sources|
  {
    seq(|sources|, i requires 0 <= i < |sources| => Given(sources[i], i))
  }

  function SourceOf(g: Given): string { g.source }

  function ResultsOf(sources: seq<Given>, end: Given -> RunEnd): seq<Result> {
    seq(|sources|, i requires 0 <= i < |sources| => Result(sources[i], end(sources[i])))
  }

  ghost predicate Ends(sources: seq<Given>, end: Given -> RunEnd, how: RunEnd) {
    exists s :: s in sources && end(s) == how
  }

  /** A failure outweighs a source that was already running. */
  ghost function CodeOf(sources: seq<Given>, end: Given -> RunEnd): int {
    if Ends(sources, end, RunFailed) || Ends(sources, end, Invalid) then EXIT_FAILED
    else if Ends(sources, end, AlreadyRunning) then EXIT_ALREADY_RUNNING
    else 0
  }

  /** One for a failure or an invalid source, three when there is neither but one already runs, zero when all complete. */
  lemma CodeIs(sources: seq<Given>, end: Given -> RunEnd)
    ensures CodeOf(sources, end) == 1 <==> exists s :: s in sources && (end(s) == RunFailed || end(s) == Invalid)
    ensures CodeOf(sources, end) == 0 <==> forall s :: s in sources ==> end(s) == Completed
    ensures CodeOf(sources, end) in {0, 1, 3}
  {
    if s :| s in sources && (end(s) == RunFailed || end(s) == Invalid) {
      assert Ends(sources, end, RunFailed) || Ends(sources, end, Invalid);
    }
    if s :| s in sources && end(s) != Completed {
      assert Ends(sources, end, end(s));
    }
  }

  ghost function Sequential(sources: seq<Given>, end: Given -> RunEnd): Finish {
    Finish(if Ends(sources, end, Invalid) then None else Some(ResultsOf(sources, end)), CodeOf(sources, end))
  }

  lemma EndsOneMore(sources: seq<Given>, end: Given -> RunEnd, i: nat, how: RunEnd)
    requires i < |sources|
    ensures Ends(sources[..i + 1], end, how) <==> Ends(sources[..i], end, how) || end(sources[i]) == how
  {
    assert sources[..i + 1] == sources[..i] + [sources[i]];
    assert sources[i] in sources[..i + 1];
    if Ends(sources[..i], end, how) {
      var s :| s in sources[..i] && end(s) == how;
      assert s in sources[..i + 1];
    }
  }

  /** The sequential loop of `run_monitoring_command`. */
  method LoadSequentially(sources: seq<Given>, end: Given -> RunEnd) returns (finish: Finish)
    ensures finish == Sequential(sources, end)
  {
    var results: seq<Result> := [];
    var code := 0;
    for i := 0 to |sources|
      invariant results == ResultsOf(sources[..i], end)
      invariant !Ends(sources[..i], end, Invalid) && code == CodeOf(sources[..i], end)
    {
      var source := sources[i];
      EndsOneMore(sources, end, i, RunFailed);
      EndsOneMore(sources, end, i, AlreadyRunning);
      EndsOneMore(sources, end, i, Invalid);
      if end(source) == Invalid {
        assert source in sources;
        return Finish(None, EXIT_FAILED);
      }
      results := results + [Result(source, end(source))];
      if end(source) == AlreadyRunning {
        code := if code != 0 then code else EXIT_ALREADY_RUNNING;
      } else if end(source) == RunFailed {
        code := EXIT_FAILED;
      }
    }
    assert sources[..|sources|] == sources;
    finish := Finish(Some(results), code);
  }

  // In lanes

  function MergeExitCodes(codes: seq<int>): int {
    if EXIT_FAILED in codes then EXIT_FAILED
    else if EXIT_ALREADY_RUNNING in codes then EXIT_ALREADY_RUNNING
    else FirstNonZero(codes)
  }

  function FirstNonZero(codes: seq<int>): int {
    if codes == [] then 0 else if codes[0] != 0 then codes[0] else FirstNonZero(codes[1..])
  }

  lemma {:induction false} FirstNonZeroIs(codes: seq<int>, i: nat)
    requires i < |codes| && codes[i] != 0 && forall j :: 0 <= j < i ==> codes[j] == 0
    ensures FirstNonZero(codes) == codes[i]
  {
    if i > 0 { FirstNonZeroIs(codes[1..], i - 1); }
  }

  /** One when any is one, else three when any is three, else the first that is not zero. */
  lemma MergedCodes(codes: seq<int>)
    ensures MergeExitCodes(codes) == 1 <==> 1 in codes
    ensures MergeExitCodes(codes) == 3 <==> 1 !in codes && 3 in codes
    ensures MergeExitCodes(codes) == 0 <==> forall i :: 0 <= i < |codes| ==> codes[i] == 0
    ensures 1 !in codes && 3 !in codes ==>
              forall i :: 0 <= i < |codes| && codes[i] != 0 && (forall j :: 0 <= j < i ==> codes[j] == 0)
                ==> MergeExitCodes(codes) == codes[i]
  {
    FirstNonZeroAmong(codes);
    forall i | 0 <= i < |codes| && codes[i] != 0 && forall j :: 0 <= j < i ==> codes[j] == 0
      ensures FirstNonZero(codes) == codes[i]
    {
      FirstNonZeroIs(codes, i);
    }
    SomeFirst(codes);
  }

  lemma {:induction false} SomeFirst(codes: seq<int>)
    ensures FirstNonZero(codes) == 0 <==> forall i :: 0 <= i < |codes| ==> codes[i] == 0
  {
    if codes != [] && codes[0] == 0 {
      SomeFirst(codes[1..]);
      assert forall i :: 0 < i < |codes| ==> codes[i] == codes[1..][i - 1];
    }
  }

  /** `position`: the last place a source was given at, past the end when it was not given. */
  function Position(sources: seq<string>, source: string): nat {
    if sources == [] || source !in sources then |sources|
    else if sources[|sources| - 1] == source then |sources| - 1
    else
      assert sources == sources[..|sources| - 1] + [sources[|sources| - 1]];
      Position(sources[..|sources| - 1], source)
  }

  ghost function LaneResults(lanes: seq<Lane<Given>>, end: Given -> RunEnd): seq<Result> {
    if lanes == [] then []
    else
      var last := Sequential(lanes[|lanes| - 1].sources, end).printed;
      LaneResults(lanes[..|lanes| - 1], end) + if last.Some? then last.value else []
  }

  ghost function LaneCodes(lanes: seq<Lane<Given>>, end: Given -> RunEnd): seq<int> {
    seq(|lanes|, i requires 0 <= i < |lanes| => CodeOf(lanes[i].sources, end))
  }

  predicate Names(givens: seq<Given>, source: string) { exists g | g in givens :: g.source == source }

  /** `dict.fromkeys` over the selected sources: a child loads each source of its lane once. */
  function FirstEach(givens: seq<Given>): seq<Given> {
    if givens == [] then []
    else
      var before, last := FirstEach(givens[..|givens| - 1]), givens[|givens| - 1];
      if Names(before, last.source) then before else before + [last]
  }

  /** What the children of the lanes load. */
  function Children(lanes: seq<Lane<Given>>): (children: seq<Lane<Given>>)
    ensures |children| == |lanes|
  {
    seq(|lanes|, i requires 0 <= i < |lanes| => lanes[i].(sources := FirstEach(lanes[i].sources)))
  }

  // A child takes its sources as selected ones, and these must all be news

  predicate EveryIsNews(givens: seq<Given>, isNews: string -> bool) { forall g | g in givens :: isNews(g.source) }

  /** What the child of a lane comes to: refused before any run for a source that is not news, else the load of its sources. */
  ghost function ChildFinish(sources: seq<Given>, isNews: string -> bool, end: Given -> RunEnd): Finish {
    if EveryIsNews(sources, isNews) then Sequential(FirstEach(sources), end) else Finish(None, EXIT_FAILED)
  }

  /** `_require_news_sources`, then the load. */
  method LoadInChild(sources: seq<Given>, isNews: string -> bool, end: Given -> RunEnd) returns (finish: Finish)
    ensures finish == ChildFinish(sources, isNews, end)
  {
    for i := 0 to |sources|
      invariant forall j :: 0 <= j < i ==> isNews(sources[j].source)
    {
      if !isNews(sources[i].source) {
        assert sources[i] in sources;
        return Finish(None, EXIT_FAILED);
      }
    }
    finish := LoadSequentially(FirstEach(sources), end);
  }

  /** What is printed of a process that may end before it prints. */
  function PrintedOf(finish: Finish): seq<Result> { if finish.printed.Some? then finish.printed.value else [] }

  ghost function ChildResults(lanes: seq<Lane<Given>>, isNews: string -> bool, end: Given -> RunEnd): seq<Result> {
    if lanes == [] then []
    else
      ChildResults(lanes[..|lanes| - 1], isNews, end)
      + PrintedOf(ChildFinish(lanes[|lanes| - 1].sources, isNews, end))
  }

  ghost function ChildCodes(lanes: seq<Lane<Given>>, isNews: string -> bool, end: Given -> RunEnd): seq<int> {
    seq(|lanes|, i requires 0 <= i < |lanes| => ChildFinish(lanes[i].sources, isNews, end).code)
  }

  lemma OneMoreResult(lanes: seq<Lane<Given>>, i: nat, isNews: string -> bool, end: Given -> RunEnd)
    requires i < |lanes|
    ensures ChildResults(lanes[..i + 1], isNews, end)
            == ChildResults(lanes[..i], isNews, end) + PrintedOf(ChildFinish(lanes[i].sources, isNews, end))
  {
    assert lanes[..i + 1][..i] == lanes[..i];
  }

  lemma OneMoreCode(lanes: seq<Lane<Given>>, i: nat, isNews: string -> bool, end: Given -> RunEnd)
    requires i < |lanes|
    ensures ChildCodes(lanes[..i + 1], isNews, end)
            == ChildCodes(lanes[..i], isNews, end) + [ChildFinish(lanes[i].sources, isNews, end).code]
  {
  }

  /** `_load_in_lanes`: a child that exits before it prints leaves an empty list. */
  method LoadInLanes(sources: seq<string>, lanes: seq<Lane<Given>>, isNews: string -> bool, end: Given -> RunEnd)
    returns (finish: Finish)
    ensures finish.printed == Some(Sort(ChildResults(lanes, isNews, end), ByPosition(sources)))
    ensures finish.code == MergeExitCodes(ChildCodes(lanes, isNews, end))
  {
    var results: seq<Result> := [];
    var codes: seq<int> := [];
    for i := 0 to |lanes|
      invariant results == ChildResults(lanes[..i], isNews, end)
      invariant codes == ChildCodes(lanes[..i], isNews, end)
    {
      var child := LoadInChild(lanes[i].sources, isNews, end);
      OneMoreResult(lanes, i, isNews, end);
      OneMoreCode(lanes, i, isNews, end);
      results := results + PrintedOf(child);
      codes := codes + [child.code];
    }
    assert lanes[..|lanes|] == lanes;
    finish := Finish(Some(Sort(results, ByPosition(sources))), MergeExitCodes(codes));
  }

  function ByPosition(sources: seq<string>): ((Result, Result) -> bool) {
    (a: Result, b: Result) => Position(sources, a.given.source) <= Position(sources, b.given.source)
  }

  // A refused child does what a child does whose first source ends the process

  /** What a source comes to for its child. */
  function InChild(isNews: string -> bool, end: Given -> RunEnd): Given -> RunEnd {
    (g: Given) => if isNews(g.source) then end(g) else Invalid
  }

  lemma {:induction false} FirstEachNames(givens: seq<Given>, source: string)
    ensures Names(FirstEach(givens), source) <==> Names(givens, source)
  {
    if givens != [] {
      var before, last := givens[..|givens| - 1], givens[|givens| - 1];
      FirstEachNames(before, source);
      FirstEachNames(before, last.source);
      assert givens == before + [last];
      assert last in givens;
      if g :| g in givens && g.source == source { assert g in before || g == last; }
    }
  }

  lemma ChildIsSequential(sources: seq<Given>, isNews: string -> bool, end: Given -> RunEnd)
    ensures ChildFinish(sources, isNews, end) == Sequential(FirstEach(sources), InChild(isNews, end))
  {
    var loaded, inChild := FirstEach(sources), InChild(isNews, end);
    if EveryIsNews(sources, isNews) {
      forall g | g in loaded
        ensures inChild(g) == end(g)
      {
        FirstEachNames(sources, g.source);
        assert Names(loaded, g.source);
      }
      SameEnds(loaded, loaded, end, inChild);
      assert ResultsOf(loaded, end) == ResultsOf(loaded, inChild);
    } else {
      var g :| g in sources && !isNews(g.source);
      FirstEachNames(sources, g.source);
      assert Names(sources, g.source);
      var first :| first in loaded && first.source == g.source;
      assert inChild(first) == Invalid;
    }
  }

  lemma ChildCodesAre(lanes: seq<Lane<Given>>, isNews: string -> bool, end: Given -> RunEnd)
    ensures ChildCodes(lanes, isNews, end) == LaneCodes(Children(lanes), InChild(isNews, end))
  {
    forall i | 0 <= i < |lanes|
      ensures ChildFinish(lanes[i].sources, isNews, end).code
              == CodeOf(Children(lanes)[i].sources, InChild(isNews, end))
    {
      ChildIsSequential(lanes[i].sources, isNews, end);
    }
  }

  lemma {:induction false} ChildResultsAre(lanes: seq<Lane<Given>>, isNews: string -> bool, end: Given -> RunEnd)
    ensures ChildResults(lanes, isNews, end) == LaneResults(Children(lanes), InChild(isNews, end))
  {
    if lanes == [] {
      assert Children(lanes) == [];
    } else {
      var n := |lanes| - 1;
      ChildResultsAre(lanes[..n], isNews, end);
      ChildIsSequential(lanes[n].sources, isNews, end);
      assert Children(lanes)[..n] == Children(lanes[..n]);
    }
  }

  // One exit code for all that ran

  lemma {:induction false} InSomeLane(lanes: seq<Lane<Given>>, s: Given)
    ensures s in Flatten(lanes) <==> exists i :: 0 <= i < |lanes| && s in lanes[i].sources
  {
    if lanes != [] {
      var n := |lanes| - 1;
      InSomeLane(lanes[..n], s);
      if s in Flatten(lanes[..n]) {
        var i :| 0 <= i < n && s in lanes[..n][i].sources;
        assert s in lanes[i].sources;
      }
      if i :| 0 <= i < |lanes| && s in lanes[i].sources {
        if i < n { assert s in lanes[..n][i].sources; }
      }
    }
  }

  lemma EndsInSomeLane(lanes: seq<Lane<Given>>, end: Given -> RunEnd, how: RunEnd)
    ensures Ends(Flatten(lanes), end, how) <==> exists i :: 0 <= i < |lanes| && Ends(lanes[i].sources, end, how)
  {
    if Ends(Flatten(lanes), end, how) {
      var s :| s in Flatten(lanes) && end(s) == how;
      InSomeLane(lanes, s);
      var i :| 0 <= i < |lanes| && s in lanes[i].sources;
      assert Ends(lanes[i].sources, end, how);
    }
    if i :| 0 <= i < |lanes| && Ends(lanes[i].sources, end, how) {
      var s :| s in lanes[i].sources && end(s) == how;
      InSomeLane(lanes, s);
    }
  }

  lemma {:induction false} FirstNonZeroAmong(codes: seq<int>)
    ensures FirstNonZero(codes) == 0 || FirstNonZero(codes) in codes
  {
    if codes != [] && codes[0] == 0 { FirstNonZeroAmong(codes[1..]); }
  }

  /** However the sources are dealt, the merged code is that of all the runs, one after another. */
  lemma MergedCodeIsOfRuns(lanes: seq<Lane<Given>>, end: Given -> RunEnd)
    ensures MergeExitCodes(LaneCodes(lanes, end)) == CodeOf(Flatten(lanes), end)
  {
    var codes, runs := LaneCodes(lanes, end), Flatten(lanes);
    EndsInSomeLane(lanes, end, RunFailed);
    EndsInSomeLane(lanes, end, Invalid);
    EndsInSomeLane(lanes, end, AlreadyRunning);
    FirstNonZeroAmong(codes);
    if CodeOf(runs, end) == EXIT_FAILED {
      var i :| 0 <= i < |lanes| && (Ends(lanes[i].sources, end, RunFailed) || Ends(lanes[i].sources, end, Invalid));
      assert codes[i] == EXIT_FAILED;
    } else if CodeOf(runs, end) == EXIT_ALREADY_RUNNING {
      var i :| 0 <= i < |lanes| && Ends(lanes[i].sources, end, AlreadyRunning);
      assert codes[i] == EXIT_ALREADY_RUNNING;
    }
  }

  lemma SameEnds(a: seq<Given>, b: seq<Given>, own: Given -> RunEnd, ended: Given -> RunEnd)
    requires forall g :: g in a <==> g in b
    requires forall g :: g in a ==> own(g) == ended(g)
    ensures forall how :: Ends(a, own, how) <==> Ends(b, ended, how)
    ensures CodeOf(a, own) == CodeOf(b, ended)
  {
  }

  // One printed list

  lemma {:induction false} LaneResultsAreAll(lanes: seq<Lane<Given>>, end: Given -> RunEnd)
    requires forall i :: 0 <= i < |lanes| ==> !Ends(lanes[i].sources, end, Invalid)
    ensures LaneResults(lanes, end) == ResultsOf(Flatten(lanes), end)
  {
    if lanes != [] {
      var n := |lanes| - 1;
      LaneResultsAreAll(lanes[..n], end);
      assert ResultsOf(Flatten(lanes), end)
          == ResultsOf(Flatten(lanes[..n]), end) + ResultsOf(lanes[n].sources, end);
    }
  }

  /** Every result is of a run, and there is at most one of each. */
  lemma {:induction false} ResultsAreOfRuns(lanes: seq<Lane<Given>>, end: Given -> RunEnd)
    ensures forall r :: r in LaneResults(lanes, end) ==> r.given in Flatten(lanes) && r.end == end(r.given)
    ensures |LaneResults(lanes, end)| <= |Flatten(lanes)|
  {
    if lanes != [] { ResultsAreOfRuns(lanes[..|lanes| - 1], end); }
  }

  /** No source is given again after another one. */
  ghost predicate Grouped(sources: seq<string>) {
    forall i, j, k :: 0 <= i < j < k < |sources| && sources[i] == sources[k] ==> sources[j] == sources[i]
  }

  lemma {:induction false} PositionIsLast(sources: seq<string>, i: nat)
    requires i < |sources|
    ensures i <= Position(sources, sources[i]) < |sources|
    ensures sources[Position(sources, sources[i])] == sources[i]
  {
    var n := |sources| - 1;
    assert sources[i] in sources;
    if sources[n] != sources[i] { PositionIsLast(sources[..n], i); }
  }

  lemma OrderedIffGrouped(sources: seq<string>, end: Given -> RunEnd)
    ensures Ordered(ResultsOf(Givens(sources), end), ByPosition(sources)) <==> Grouped(sources)
  {
    var results, le := ResultsOf(Givens(sources), end), ByPosition(sources);
    if Grouped(sources) {
      forall i, j | 0 <= i < j < |sources|
        ensures le(results[i], results[j])
      {
        PositionIsLast(sources, i);
        PositionIsLast(sources, j);
      }
    }
    if Ordered(results, le) {
      forall i, j, k | 0 <= i < j < k < |sources| && sources[i] == sources[k]
        ensures sources[j] == sources[i]
      {
        PositionIsLast(sources, i);
        PositionIsLast(sources, j);
        assert le(results[i], results[j]) && le(results[j], results[k]);
      }
    }
  }
}

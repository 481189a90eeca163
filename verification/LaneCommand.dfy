/** The load as the command runs it: in lanes when there are several, else in this process. */
module LaneCommand {
  import opened Wrappers
  import opened Sorting
  import opened Lanes
  import opened LaneLoad
  import opened LaneRepeats
  import opened LaneSchedules
  import opened LaneRaces

  function HostOfGiven(hostOf: string -> string): Given -> string { (g: Given) => hostOf(g.source) }

  /** The lanes of a list of sources. */
  ghost function Dealt(sources: seq<string>, hostOf: string -> string, limit: string -> nat): seq<Lane<Given>>
    requires forall h :: limit(h) >= 1
  {
    var host := HostOfGiven(hostOf);
    LanesOfHosts(HostsInTurn(Givens(sources), host), Givens(sources), host, limit)
  }

  lemma DealtDeals(sources: seq<string>, hostOf: string -> string, limit: string -> nat)
    requires forall h :: limit(h) >= 1
    ensures Deals(Dealt(sources, hostOf, limit), sources)
  {
    var host := HostOfGiven(hostOf);
    HostsInTurnAreHosts(Givens(sources), host);
    LanesPartitionTheSources(HostsInTurn(Givens(sources), host), Givens(sources), host, limit);
  }

  // A lane keeps the order given

  lemma {:induction false} OfHostAscends(givens: seq<Given>, hostOf: Given -> string, host: string)
    requires Ascends(givens)
    ensures Ascends(OfHost(givens, hostOf, host))
  {
    if givens != [] {
      var n := |givens| - 1;
      OfHostAscends(givens[..n], hostOf, host);
      OfHostIsOfHost(givens[..n], hostOf, host);
      forall g | g in OfHost(givens[..n], hostOf, host)
        ensures g.place < givens[n].place
      {
        assert g in givens[..n];
      }
    }
  }

  lemma {:induction false} StrideFrom(givens: seq<Given>, index: nat, count: nat, g: Given)
    requires count > 0 && Ascends(givens) && g in Stride(givens, index, count)
    ensures index < |givens| && givens[index].place <= g.place
    decreases |givens| - index
  {
    if g != givens[index] { StrideFrom(givens, index + count, count, g); }
  }

  lemma {:induction false} StrideAscends(givens: seq<Given>, index: nat, count: nat)
    requires count > 0 && Ascends(givens)
    ensures Ascends(Stride(givens, index, count))
    decreases |givens| - index
  {
    if index < |givens| {
      var rest := Stride(givens, index + count, count);
      StrideAscends(givens, index + count, count);
      forall g | g in rest
        ensures givens[index].place < g.place
      {
        StrideFrom(givens, index + count, count, g);
      }
    }
  }

  lemma {:induction false} LanesOfHostsAscend(
    hosts: seq<string>, givens: seq<Given>, hostOf: Given -> string, limit: string -> nat)
    requires Ascends(givens) && forall h :: limit(h) >= 1
    ensures LanesAscend(LanesOfHosts(hosts, givens, hostOf, limit))
  {
    if hosts != [] {
      var n := |hosts| - 1;
      var mine := OfHost(givens, hostOf, hosts[n]);
      LanesOfHostsAscend(hosts[..n], givens, hostOf, limit);
      OfHostAscends(givens, hostOf, hosts[n]);
      if mine != [] {
        var count := Min(|mine|, limit(hosts[n]));
        forall index | 0 <= index < count
          ensures Ascends(Stride(mine, index, count))
        {
          StrideAscends(mine, index, count);
        }
      }
    }
  }

  lemma DealtAscend(sources: seq<string>, hostOf: string -> string, limit: string -> nat)
    requires forall h :: limit(h) >= 1
    ensures LanesAscend(Dealt(sources, hostOf, limit))
  {
    var host := HostOfGiven(hostOf);
    LanesOfHostsAscend(HostsInTurn(Givens(sources), host), Givens(sources), host, limit);
  }

  /** What the command prints and exits with: of one process for one lane, else of the lanes. */
  ghost function CommandFinish(
    sources: seq<string>, lanes: seq<Lane<Given>>, isNews: string -> bool, own: Given -> RunEnd, ended: Given -> RunEnd): Finish
  {
    if |lanes| <= 1 then Sequential(Givens(sources), own)
    else Finish(Some(PrintedInLanes(sources, lanes, isNews, ended)), CodeInLanes(lanes, isNews, ended))
  }

  /** The code of one process; and its output, unless a source ends that of several lanes. */
  ghost predicate AsOneProcess(
    sources: seq<string>, lanes: seq<Lane<Given>>, isNews: string -> bool, own: Given -> RunEnd, ended: Given -> RunEnd)
  {
    var finish, sequential := CommandFinish(sources, lanes, isNews, own, ended), Sequential(Givens(sources), own);
    && finish.code == sequential.code
    && (finish == sequential <==> |lanes| <= 1 || !Ends(Givens(sources), own, Invalid))
  }

  ghost predicate AlwaysAsOneProcess(sources: seq<string>, lanes: seq<Lane<Given>>, isNews: string -> bool) {
    forall own: Given -> RunEnd, ended: Given -> RunEnd, t: Times ::
      Schedule(Children(lanes), isNews, own, ended, t) ==> AsOneProcess(sources, lanes, isNews, own, ended)
  }

  lemma InLanesAsOneProcessIff(
    sources: seq<string>, lanes: seq<Lane<Given>>, isNews: string -> bool, own: Given -> RunEnd, ended: Given -> RunEnd)
    requires |lanes| > 1
    ensures AsSequential(sources, lanes, isNews, own, ended) ==> AsOneProcess(sources, lanes, isNews, own, ended)
    ensures AsOneProcess(sources, lanes, isNews, own, ended) ==> CodeInLanes(lanes, isNews, ended) == CodeOf(Givens(sources), own)
  {
  }

  /**
   Whatever its sources come to and whenever they run, the command gives what one process gives
   exactly when it has one lane at most, or every source is news and none is given twice.
   */
  lemma CommandIsSequentialIff(sources: seq<string>, hostOf: string -> string, limit: string -> nat, isNews: string -> bool)
    requires forall h :: limit(h) >= 1
    ensures AlwaysAsOneProcess(sources, Dealt(sources, hostOf, limit), isNews)
            <==> |Dealt(sources, hostOf, limit)| <= 1 || (NoRepeats(sources) && EveryNews(sources, isNews))
  {
    var lanes := Dealt(sources, hostOf, limit);
    DealtDeals(sources, hostOf, limit);
    DealtAscend(sources, hostOf, limit);
    if |lanes| > 1 {
      if NoRepeats(sources) && EveryNews(sources, isNews) {
        forall own: Given -> RunEnd, ended: Given -> RunEnd, t: Times | Schedule(Children(lanes), isNews, own, ended, t)
          ensures AsOneProcess(sources, lanes, isNews, own, ended)
        {
          DifferentSourcesAgree(lanes, sources, isNews, own, ended, t);
          InLanesAsOneProcessIff(sources, lanes, isNews, own, ended);
        }
      } else {
        var own, ended, t := OtherCanShow(sources, lanes, isNews);
        InLanesAsOneProcessIff(sources, lanes, isNews, own, ended);
        assert !AsOneProcess(sources, lanes, isNews, own, ended);
      }
    }
  }

  /** `own`, `ended`, `t`: what the sources come to when nothing refuses them, in the lanes, and when. */
  method Load(
    sources: seq<string>, hostOf: string -> string, limit: string -> nat, isNews: string -> bool,
    own: Given -> RunEnd, ended: Given -> RunEnd, ghost t: Times)
    returns (finish: Finish, lanes: seq<Lane<Given>>)
    requires forall h :: limit(h) >= 1
    requires Schedule(Children(Dealt(sources, hostOf, limit)), isNews, own, ended, t)
    ensures lanes == Dealt(sources, hostOf, limit) && finish == CommandFinish(sources, lanes, isNews, own, ended)
    ensures |lanes| <= 1 || (NoRepeats(sources) && EveryNews(sources, isNews)) ==>
              AsOneProcess(sources, lanes, isNews, own, ended)
  {
    lanes := SourceLanes(Givens(sources), HostOfGiven(hostOf), limit);
    DealtDeals(sources, hostOf, limit);
    if |lanes| > 1 {
      finish := LoadInLanes(sources, lanes, isNews, ended);
      if NoRepeats(sources) && EveryNews(sources, isNews) {
        DifferentSourcesAgree(lanes, sources, isNews, own, ended, t);
      }
    } else {
      finish := LoadSequentially(Givens(sources), own);
    }
  }

  // Three lists that show it

  lemma OneHostLanes(sources: seq<string>, hostOf: string -> string, limit: string -> nat, host: string)
    requires sources != [] && forall i :: 0 <= i < |sources| ==> hostOf(sources[i]) == host
    requires forall h :: limit(h) >= 1
    ensures Dealt(sources, hostOf, limit) == LanesOf(host, Givens(sources), Min(|sources|, limit(host)))
  {
    var byHost, givens := HostOfGiven(hostOf), Givens(sources);
    AllOfHost(givens, byHost, host);
    assert [host][..0] == [];
    assert LanesOfHosts([host], givens, byHost, limit) == [] + LanesOf(host, givens, Min(|givens|, limit(host)));
  }

  lemma {:induction false} AllOfHost(givens: seq<Given>, hostOf: Given -> string, host: string)
    requires forall i :: 0 <= i < |givens| ==> hostOf(givens[i]) == host
    ensures OfHost(givens, hostOf, host) == givens
    ensures HostsInTurn(givens, hostOf) == if givens == [] then [] else [host]
  {
    if givens != [] {
      AllOfHost(givens[..|givens| - 1], hostOf, host);
      assert givens == givens[..|givens| - 1] + [givens[|givens| - 1]];
    }
  }

  lemma LanesOfTwo(host: string, x: Given, y: Given)
    ensures LanesOf(host, [x, y], 2) == [Lane(host, [x], true), Lane(host, [y], true)]
  {
    var s := [x, y];
    assert Stride(s, 0, 2) == [s[0]] + Stride(s, 2, 2);
    assert Stride(s, 1, 2) == [s[1]] + Stride(s, 3, 2);
    var lanes := LanesOf(host, s, 2);
    assert lanes[0] == Lane(host, [x], true) && lanes[1] == Lane(host, [y], true);
  }

  lemma LanesOfThree(host: string, x: Given, y: Given, z: Given)
    ensures LanesOf(host, [x, y, z], 2) == [Lane(host, [x, z], true), Lane(host, [y], true)]
  {
    var s := [x, y, z];
    assert Stride(s, 0, 2) == [s[0]] + ([s[2]] + Stride(s, 4, 2));
    assert Stride(s, 1, 2) == [s[1]] + Stride(s, 3, 2);
    var lanes := LanesOf(host, s, 2);
    assert lanes[0] == Lane(host, [x, z], true) && lanes[1] == Lane(host, [y], true);
  }

  lemma TwoLanesRace(sources: seq<string>, lanes: seq<Lane<Given>>, host: string, early: Given, late: Given)
    requires early.source == late.source && early.place < late.place < |sources|
    requires lanes == [Lane(host, [early], true), Lane(host, [late], true)] && Deals(lanes, sources)
    ensures Racing(lanes, sources, 0, 1, early, late)
  {
    FirstEachOfDifferent([early]);
    FirstEachOfDifferent([late]);
  }

  lemma LanesOfTwice(hostOf: string -> string, limit: string -> nat)
    requires limit(hostOf("a")) >= 2 && forall h :: limit(h) >= 1
    ensures Dealt(["a", "a"], hostOf, limit)
            == [Lane(hostOf("a"), [Given("a", 0)], true), Lane(hostOf("a"), [Given("a", 1)], true)]
  {
    OneHostLanes(["a", "a"], hostOf, limit, hostOf("a"));
    assert Givens(["a", "a"]) == [Given("a", 0), Given("a", 1)];
    LanesOfTwo(hostOf("a"), Given("a", 0), Given("a", 1));
  }

  /**
   `a` given twice, to a host that allows two requests: the load in lanes may exit with 3, where
   one process loads it twice and exits with 0.
   */
  lemma GivenTwice(hostOf: string -> string, limit: string -> nat, isNews: string -> bool)
    returns (own: Given -> RunEnd, ended: Given -> RunEnd, t: Times)
    requires limit(hostOf("a")) >= 2 && isNews("a") && forall h :: limit(h) >= 1
    ensures
      var sources := ["a", "a"];
      var lanes := Dealt(sources, hostOf, limit);
      && |lanes| == 2 && Schedule(Children(lanes), isNews, own, ended, t)
      && CodeInLanes(lanes, isNews, ended) == EXIT_ALREADY_RUNNING && CodeOf(Givens(sources), own) == 0
  {
    var sources, early, late := ["a", "a"], Given("a", 0), Given("a", 1);
    LanesOfTwice(hostOf, limit);
    DealtDeals(sources, hostOf, limit);
    own, ended, t := RaceOfTwo(sources, Dealt(sources, hostOf, limit), hostOf("a"), isNews, early, late);
  }

  lemma RaceOfTwo(
    sources: seq<string>, lanes: seq<Lane<Given>>, host: string, isNews: string -> bool, early: Given, late: Given)
    returns (own: Given -> RunEnd, ended: Given -> RunEnd, t: Times)
    requires early.source == late.source && early.place < late.place < |sources| && EveryNews(sources, isNews)
    requires lanes == [Lane(host, [early], true), Lane(host, [late], true)] && Deals(lanes, sources)
    ensures Schedule(Children(lanes), isNews, own, ended, t)
    ensures CodeInLanes(lanes, isNews, ended) == EXIT_ALREADY_RUNNING && CodeOf(Givens(sources), own) == 0
  {
    TwoLanesRace(sources, lanes, host, early, late);
    own, ended, t := RunIsRefused(lanes, sources, isNews, 0, 1, early, late);
  }

  lemma SwappedRepeats(sources: seq<string>, lanes: seq<Lane<Given>>, host: string, x: Given, y: Given, z: Given)
    requires Givens(sources) == [x, y, z] && x.source != y.source && y.source == z.source
    requires lanes == [Lane(host, [x, z], true), Lane(host, [y], true)]
    ensures !KeepsRepeats(lanes, sources)
  {
    var source := y.source;
    assert lanes[..2] == lanes && lanes[..1] == [lanes[0]];
    assert Flatten([lanes[0]]) == [x, z] by { assert [lanes[0]][..0] == []; }
    assert Flatten(lanes) == [x, z] + [y];
    ClassHead(x, [z, y], SourceOf, source);
    ClassHead(z, [y], SourceOf, source);
    ClassHead(x, [y, z], SourceOf, source);
    ClassHead(y, [z], SourceOf, source);
    assert [x, z] + [y] == [x] + [z, y] && [z, y] == [z] + [y];
    assert [x, y, z] == [x] + [y, z] && [y, z] == [y] + [z];
    assert Class(Flatten(lanes), SourceOf, source)[0] == z;
    assert Class(Givens(sources), SourceOf, source)[0] == y;
    assert Givens(sources)[1].place == 1 && Givens(sources)[2].place == 2;
  }

  /**
   `a`, `b`, `b` of a host that allows two requests: the results of `b` come out swapped, even
   when no run refuses another.
   */
  lemma RepeatsComeOutSwapped(hostOf: string -> string, limit: string -> nat, isNews: string -> bool, own: Given -> RunEnd)
    requires hostOf("a") == hostOf("b") && limit(hostOf("a")) == 2 && forall h :: limit(h) >= 1
    requires !Ends(Givens(["a", "b", "b"]), own, Invalid)
    ensures
      var sources := ["a", "b", "b"];
      var lanes := Dealt(sources, hostOf, limit);
      && Schedule(Children(lanes), isNews, own, own, InPlaces())
      && Some(PrintedInLanes(sources, lanes, isNews, own)) != Sequential(Givens(sources), own).printed
  {
    var sources := ["a", "b", "b"];
    var lanes, host := Dealt(sources, hostOf, limit), hostOf("a");
    var first, second, third := Given("a", 0), Given("b", 1), Given("b", 2);
    OneHostLanes(sources, hostOf, limit, host);
    assert Givens(sources) == [first, second, third];
    LanesOfThree(host, first, second, third);
    DealtDeals(sources, hostOf, limit);
    DealtAscend(sources, hostOf, limit);
    InPlacesIsSchedule(lanes, sources, isNews, own);
    SwappedRepeats(sources, lanes, host, first, second, third);
    ParallelPrintsSequentialIff(sources, lanes, isNews, own, own);
  }

  lemma LaneOfGiven(sources: seq<string>, hostOf: string -> string, limit: string -> nat, i: nat) returns (k: nat)
    requires i < |sources| && forall h :: limit(h) >= 1
    ensures k < |Dealt(sources, hostOf, limit)| && Dealt(sources, hostOf, limit)[k].host == hostOf(sources[i])
  {
    var lanes, host, g := Dealt(sources, hostOf, limit), HostOfGiven(hostOf), Givens(sources)[i];
    DealtDeals(sources, hostOf, limit);
    GivenIsDealt(lanes, sources, g);
    InSomeLane(lanes, g);
    k :| 0 <= k < |lanes| && g in lanes[k].sources;
    LanesAreOfOneHost(HostsInTurn(Givens(sources), host), Givens(sources), host, limit, lanes[k]);
  }

  lemma TwoHostsTwoLanes(sources: seq<string>, hostOf: string -> string, limit: string -> nat, i: nat, j: nat)
    requires i < |sources| && j < |sources| && hostOf(sources[i]) != hostOf(sources[j])
    requires forall h :: limit(h) >= 1
    ensures |Dealt(sources, hostOf, limit)| > 1
  {
    var a := LaneOfGiven(sources, hostOf, limit, i);
    var b := LaneOfGiven(sources, hostOf, limit, j);
  }

  /**
   The registry of the persecuted and a news site, each loaded well, as the default list holds
   both: one process exits with 0, the lanes with 1.
   */
  lemma RegistryIsRefused(hostOf: string -> string, limit: string -> nat, isNews: string -> bool)
    requires hostOf("memopzk-figurants") != hostOf("ovd-info") && !isNews("memopzk-figurants")
    requires forall h :: limit(h) >= 1
    ensures
      var sources := ["memopzk-figurants", "ovd-info"];
      var lanes := Dealt(sources, hostOf, limit);
      && |lanes| > 1 && Schedule(Children(lanes), isNews, AllComplete(), AllComplete(), InPlaces())
      && CommandFinish(sources, lanes, isNews, AllComplete(), AllComplete()).code == EXIT_FAILED
      && CodeOf(Givens(sources), AllComplete()) == 0
  {
    var sources := ["memopzk-figurants", "ovd-info"];
    var lanes := Dealt(sources, hostOf, limit);
    TwoHostsTwoLanes(sources, hostOf, limit, 0, 1);
    DealtDeals(sources, hostOf, limit);
    DealtAscend(sources, hostOf, limit);
    InPlacesIsSchedule(lanes, sources, isNews, AllComplete());
    assert !isNews(sources[0]);
    OtherThanNewsFails(sources, lanes, isNews, AllComplete());
    NoneRefused(Givens(sources));
  }
}

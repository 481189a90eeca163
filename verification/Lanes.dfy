/** `source_lanes`: the sources split by host, and a host of many sources into strides. */
module Lanes {
  import opened Dicts

  /** The sources may carry where they were given beside their names: `hostOf` reads the host of either. */
  datatype Lane<T> = Lane(host: string, sources: seq<T>, shared: bool)

  function Min(a: nat, b: nat): nat { if a < b then a else b }

  /** `s[index::count]` */
  function Stride<T>(s: seq<T>, index: nat, count: nat): seq<T>
    requires count > 0
    decreases |s| - index
  {
    if index >= |s| then [] else [s[index]] + Stride(s, index + count, count)
  }

  /** The sources of one host, in the order given. */
  function OfHost<T>(sources: seq<T>, hostOf: T -> string, host: string): seq<T> {
    if sources == [] then []
    else
      var last := sources[|sources| - 1];
      OfHost(sources[..|sources| - 1], hostOf, host) + if hostOf(last) == host then [last] else []
  }

  function LanesOf<T>(host: string, sources: seq<T>, count: nat): seq<Lane<T>>
    requires count > 0
  {
    seq(count, index requires 0 <= index < count => Lane(host, Stride(sources, index, count), count > 1))
  }

  ghost function LanesOfHosts<T>(
    hosts: seq<string>, sources: seq<T>, hostOf: T -> string, limit: string -> nat): seq<Lane<T>>
    requires forall h :: limit(h) >= 1
  {
    if hosts == [] then []
    else
      var host := hosts[|hosts| - 1];
      var mine := OfHost(sources, hostOf, host);
      LanesOfHosts(hosts[..|hosts| - 1], sources, hostOf, limit)
      + if mine == [] then [] else LanesOf(host, mine, Min(|mine|, limit(host)))
  }

  ghost predicate AreHostsOf<T>(hosts: seq<string>, sources: seq<T>, hostOf: T -> string) {
    && (forall i, j :: 0 <= i < j < |hosts| ==> hosts[i] != hosts[j])
    && (forall i :: 0 <= i < |sources| ==> hostOf(sources[i]) in hosts)
    && (forall h :: h in hosts ==> OfHost(sources, hostOf, h) != [])
  }

  /** The hosts in the order the sources first name them. */
  ghost function HostsInTurn<T>(sources: seq<T>, hostOf: T -> string): seq<string> {
    if sources == [] then []
    else
      var before, host := HostsInTurn(sources[..|sources| - 1], hostOf), hostOf(sources[|sources| - 1]);
      if host in before then before else before + [host]
  }

  /** The `by_host` dict: each host in its turn, with its sources in the order given. */
  ghost predicate ByHost<T>(byHost: Dict<string, seq<T>>, sources: seq<T>, hostOf: T -> string) {
    && byHost.Valid() && AreHostsOf(byHost.keys, sources, hostOf)
    && byHost.keys == HostsInTurn(sources, hostOf) && ListsSources(byHost.items, sources, hostOf)
  }

  lemma {:induction false} NoSourcesOfOther<T>(sources: seq<T>, hostOf: T -> string, host: string)
    requires forall i :: 0 <= i < |sources| ==> hostOf(sources[i]) != host
    ensures OfHost(sources, hostOf, host) == []
  {
    if sources != [] { NoSourcesOfOther(sources[..|sources| - 1], hostOf, host); }
  }

  lemma OfHostNext<T>(sources: seq<T>, hostOf: T -> string, source: T, host: string)
    ensures OfHost(sources + [source], hostOf, host)
            == OfHost(sources, hostOf, host) + if hostOf(source) == host then [source] else []
  {
    assert (sources + [source])[..|sources|] == sources;
  }

  lemma HostsTakeSource<T>(hosts: seq<string>, sources: seq<T>, hostOf: T -> string, source: T)
    requires AreHostsOf(hosts, sources, hostOf) && hosts == HostsInTurn(sources, hostOf)
    ensures
      var next := if hostOf(source) in hosts then hosts else hosts + [hostOf(source)];
      AreHostsOf(next, sources + [source], hostOf) && next == HostsInTurn(sources + [source], hostOf)
  {
    var next := if hostOf(source) in hosts then hosts else hosts + [hostOf(source)];
    assert (sources + [source])[..|sources|] == sources;
    forall h | h in next
      ensures OfHost(sources + [source], hostOf, h) != []
    {
      OfHostNext(sources, hostOf, source, h);
      assert h in hosts || h == hostOf(source);
    }
  }

  lemma HostsOfNext<T>(sources: seq<T>, hostOf: T -> string, source: T)
    requires AreHostsOf(HostsInTurn(sources, hostOf), sources, hostOf)
    ensures AreHostsOf(HostsInTurn(sources + [source], hostOf), sources + [source], hostOf)
  {
    HostsTakeSource(HostsInTurn(sources, hostOf), sources, hostOf, source);
  }

  lemma {:induction false} HostsInTurnAreHosts<T>(sources: seq<T>, hostOf: T -> string)
    ensures AreHostsOf(HostsInTurn(sources, hostOf), sources, hostOf)
  {
    if sources != [] {
      HostsInTurnAreHosts(sources[..|sources| - 1], hostOf);
      HostsOfNext(sources[..|sources| - 1], hostOf, sources[|sources| - 1]);
      assert sources[..|sources| - 1] + [sources[|sources| - 1]] == sources;
    }
  }

  ghost predicate ListsSources<T>(items: map<string, seq<T>>, sources: seq<T>, hostOf: T -> string) {
    forall h :: h in items ==> items[h] == OfHost(sources, hostOf, h)
  }

  lemma ListTakesSource<T>(
    items: map<string, seq<T>>, sources: seq<T>, hostOf: T -> string, source: T)
    requires ListsSources(items, sources, hostOf)
    requires forall i :: 0 <= i < |sources| ==> hostOf(sources[i]) in items
    ensures
      var held := if hostOf(source) in items then items[hostOf(source)] else [];
      ListsSources(items[hostOf(source) := held + [source]], sources + [source], hostOf)
  {
    var host := hostOf(source);
    var held := if host in items then items[host] else [];
    if host !in items {
      forall i | 0 <= i < |sources|
        ensures hostOf(sources[i]) != host
      {
        assert hostOf(sources[i]) in items;
      }
      NoSourcesOfOther(sources, hostOf, host);
    }
    forall h | h in items[host := held + [source]]
      ensures items[host := held + [source]][h] == OfHost(sources + [source], hostOf, h)
    {
      OfHostNext(sources, hostOf, source, h);
    }
  }

  lemma HostTakesSource<T>(
    byHost: Dict<string, seq<T>>, sources: seq<T>, hostOf: T -> string, source: T)
    requires ByHost(byHost, sources, hostOf)
    ensures
      var host := hostOf(source);
      var held := if host in byHost.items then byHost.items[host] else [];
      ByHost(byHost.Put(host, held + [source]), sources + [source], hostOf)
  {
    HostsTakeSource(byHost.keys, sources, hostOf, source);
    ListTakesSource(byHost.items, sources, hostOf, source);
  }

  lemma NoHosts<T>(hostOf: T -> string)
    ensures ByHost(Empty(), [], hostOf)
  {
  }

  /** `by_host.setdefault(host, []).append(source)` */
  method AppendToHost<T>(byHost: Dict<string, seq<T>>, ghost before: seq<T>, hostOf: T -> string, source: T)
    returns (next: Dict<string, seq<T>>)
    requires ByHost(byHost, before, hostOf)
    ensures ByHost(next, before + [source], hostOf)
  {
    HostTakesSource(byHost, before, hostOf, source);
    var host := hostOf(source);
    var held := if host in byHost.items then byHost.items[host] else [];
    next := byHost.Put(host, held + [source]);
  }

  lemma OneMore<T>(sources: seq<T>, i: nat)
    requires i < |sources|
    ensures sources[..i + 1] == sources[..i] + [sources[i]]
  {
  }

  method GroupByHost<T>(sources: seq<T>, hostOf: T -> string) returns (byHost: Dict<string, seq<T>>)
    ensures ByHost(byHost, sources, hostOf)
  {
    byHost := Empty();
    NoHosts(hostOf);
    assert sources[..0] == [];
    for i := 0 to |sources|
      invariant ByHost(byHost, sources[..i], hostOf)
    {
      OneMore(sources, i);
      byHost := AppendToHost(byHost, sources[..i], hostOf, sources[i]);
    }
    assert sources[..|sources|] == sources;
  }

  lemma LanesOfNextHost<T>(
    hosts: seq<string>, i: nat, sources: seq<T>, hostOf: T -> string, limit: string -> nat)
    requires i < |hosts| && OfHost(sources, hostOf, hosts[i]) != [] && forall h :: limit(h) >= 1
    ensures
      var mine := OfHost(sources, hostOf, hosts[i]);
      LanesOfHosts(hosts[..i + 1], sources, hostOf, limit)
      == LanesOfHosts(hosts[..i], sources, hostOf, limit) + LanesOf(hosts[i], mine, Min(|mine|, limit(hosts[i])))
  {
    assert hosts[..i + 1][..i] == hosts[..i];
  }

  /** A host allows at least one request, as `FetchLimits` checks when it is made. */
  method SourceLanes<T>(sources: seq<T>, hostOf: T -> string, limit: string -> nat)
    returns (lanes: seq<Lane<T>>)
    requires forall h :: limit(h) >= 1
    ensures AreHostsOf(HostsInTurn(sources, hostOf), sources, hostOf)
    ensures lanes == LanesOfHosts(HostsInTurn(sources, hostOf), sources, hostOf, limit)
  {
    var byHost := GroupByHost(sources, hostOf);
    ghost var hosts := byHost.keys;
    lanes := [];
    for i := 0 to |byHost.keys|
      invariant lanes == LanesOfHosts(hosts[..i], sources, hostOf, limit)
    {
      var host := byHost.keys[i];
      assert host in byHost.keys;
      var mine := byHost.items[host];
      LanesOfNextHost(hosts, i, sources, hostOf, limit);
      lanes := lanes + LanesOf(host, mine, Min(|mine|, limit(host)));
    }
    assert hosts[..|hosts|] == hosts;
  }

  // What a stride holds

  /** Every place of the list is in one stride, in order: place `p` is the `p / count`-th of stride `p % count`. */
  lemma {:induction false} StrideAt<T>(s: seq<T>, index: nat, count: nat, k: nat)
    requires count > 0
    ensures k < |Stride(s, index, count)| <==> index + k * count < |s|
    ensures k < |Stride(s, index, count)| ==> Stride(s, index, count)[k] == s[index + k * count]
    decreases k
  {
    if k > 0 {
      Advance(k, count);
      if index < |s| { StrideAt(s, index + count, count, k - 1); }
    }
  }

  lemma Advance(k: nat, count: nat)
    requires k > 0
    ensures count + (k - 1) * count == k * count && k * count >= count
  {
  }

  lemma EveryPlaceInOneStride<T>(s: seq<T>, count: nat, p: nat)
    requires count > 0 && p < |s|
    ensures p / count < |Stride(s, p % count, count)| && Stride(s, p % count, count)[p / count] == s[p]
  {
    assert p == p % count + (p / count) * count;
    StrideAt(s, p % count, count, p / count);
  }

  /** The strides of one list differ in length by at most one, and none is empty. */
  lemma StrideLength<T>(s: seq<T>, index: nat, count: nat)
    requires 0 < count <= |s| && index < count
    ensures |Stride(s, index, count)| == |s| / count + (if index < |s| % count then 1 else 0)
    ensures |Stride(s, index, count)| >= 1
  {
    var n := |s| / count + (if index < |s| % count then 1 else 0);
    DivideRound(|s|, count);
    if n > 0 {
      StrideAt(s, index, count, n - 1);
    }
    StrideAt(s, index, count, n);
  }

  lemma DivideRound(n: nat, count: nat)
    requires 0 < count <= n
    ensures n == (n / count) * count + n % count && n / count >= 1
    ensures (n / count + 1) * count == (n / count) * count + count
    ensures (n / count - 1) * count == (n / count) * count - count
  {
  }

  // How many lanes a host has

  function LaneCount<T>(lanes: seq<Lane<T>>, host: string): nat {
    if lanes == [] then 0
    else LaneCount(lanes[..|lanes| - 1], host) + if lanes[|lanes| - 1].host == host then 1 else 0
  }

  lemma {:induction false} LaneCountJoins<T>(a: seq<Lane<T>>, b: seq<Lane<T>>, host: string)
    ensures LaneCount(a + b, host) == LaneCount(a, host) + LaneCount(b, host)
  {
    if b != [] {
      var n := |b| - 1;
      assert (a + b)[..|a + b| - 1] == a + b[..n];
      LaneCountJoins(a, b[..n], host);
    } else {
      assert a + b == a;
    }
  }

  lemma {:induction false} LaneCountOfOne<T>(lanes: seq<Lane<T>>, own: string, host: string)
    requires forall i :: 0 <= i < |lanes| ==> lanes[i].host == own
    ensures LaneCount(lanes, host) == if host == own then |lanes| else 0
  {
    if lanes != [] { LaneCountOfOne(lanes[..|lanes| - 1], own, host); }
  }

  /** The lanes of a host are `count`, and each knows whether it has others beside it. */
  ghost predicate HasLanes<T>(lanes: seq<Lane<T>>, host: string, count: nat) {
    && LaneCount(lanes, host) == count
    && forall i :: 0 <= i < |lanes| && lanes[i].host == host ==> lanes[i].shared == (count > 1)
  }

  lemma LanesOfOneMore<T>(before: seq<Lane<T>>, own: string, mine: seq<T>, count: nat, host: string, had: nat)
    requires count > 0 && HasLanes(before, host, had) && (host == own ==> had == 0)
    ensures HasLanes(before + LanesOf(own, mine, count), host, if host == own then count else had)
  {
    var lanes := LanesOf(own, mine, count);
    LaneCountJoins(before, lanes, host);
    LaneCountOfOne(lanes, own, host);
    if host == own { NoneOf(before, host); }
  }

  lemma {:induction false} NoneOf<T>(lanes: seq<Lane<T>>, host: string)
    requires LaneCount(lanes, host) == 0
    ensures forall i :: 0 <= i < |lanes| ==> lanes[i].host != host
  {
    if lanes != [] { NoneOf(lanes[..|lanes| - 1], host); }
  }

  /** A host has as many lanes as sources, up to its limit. */
  lemma {:induction false} LanesOfAHost<T>(
    hosts: seq<string>, sources: seq<T>, hostOf: T -> string, limit: string -> nat, host: string)
    requires forall h :: limit(h) >= 1
    requires forall i, j :: 0 <= i < j < |hosts| ==> hosts[i] != hosts[j]
    ensures
      var mine := |OfHost(sources, hostOf, host)|;
      HasLanes(LanesOfHosts(hosts, sources, hostOf, limit), host,
               if host !in hosts then 0 else if mine <= limit(host) then mine else limit(host))
  {
    if hosts != [] {
      var n := |hosts| - 1;
      var before, mine := LanesOfHosts(hosts[..n], sources, hostOf, limit), OfHost(sources, hostOf, hosts[n]);
      var own := |OfHost(sources, hostOf, host)|;
      var had: nat := if host !in hosts[..n] then 0 else if own <= limit(host) then own else limit(host);
      LanesOfAHost(hosts[..n], sources, hostOf, limit, host);
      if mine == [] {
        assert LanesOfHosts(hosts, sources, hostOf, limit) == before;
      } else {
        LanesOfOneMore(before, hosts[n], mine, Min(|mine|, limit(hosts[n])), host, had);
      }
    }
  }

  // The lanes hold every source once

  function Flatten<T>(lanes: seq<Lane<T>>): seq<T> {
    if lanes == [] then [] else Flatten(lanes[..|lanes| - 1]) + lanes[|lanes| - 1].sources
  }

  lemma {:induction false} FlattenJoins<T>(a: seq<Lane<T>>, b: seq<Lane<T>>)
    ensures Flatten(a + b) == Flatten(a) + Flatten(b)
  {
    if b != [] {
      var n := |b| - 1;
      assert (a + b)[..|a + b| - 1] == a + b[..n];
      FlattenJoins(a, b[..n]);
    } else {
      assert a + b == a;
    }
  }

  ghost function Strides<T>(s: seq<T>, count: nat, upTo: nat): multiset<T>
    requires count > 0
  {
    if upTo == 0 then multiset{} else Strides(s, count, upTo - 1) + multiset(Stride(s, upTo - 1, count))
  }

  /** Counting from `index` by `count` meets `n`. */
  predicate Meets(index: nat, n: nat, count: nat)
    requires count > 0
    decreases n + count - index
  {
    index == n || (index < n && Meets(index + count, n, count))
  }

  lemma {:induction false} StrideAppend<T>(s: seq<T>, x: T, index: nat, count: nat)
    requires count > 0
    ensures Stride(s + [x], index, count) == Stride(s, index, count) + if Meets(index, |s|, count) then [x] else []
    decreases |s| + count - index
  {
    if index < |s| {
      StrideAppend(s, x, index + count, count);
    } else if index == |s| {
      assert Stride(s + [x], index + count, count) == [];
    }
  }

  /** The stride, of the first `count`, that meets `n`. */
  function Remainder(n: nat, count: nat): (r: nat)
    requires count > 0
    ensures r < count
  {
    if n < count then n else Remainder(n - count, count)
  }

  lemma {:induction false} MeetsShifted(index: nat, n: nat, count: nat)
    requires count > 0 && n >= count
    ensures Meets(index + count, n, count) <==> Meets(index, n - count, count)
    decreases n + count - index
  {
    if index + count < n { MeetsShifted(index + count, n, count); }
  }

  lemma {:induction false} OneStrideMeets(index: nat, n: nat, count: nat)
    requires index < count
    ensures Meets(index, n, count) <==> index == Remainder(n, count)
    decreases n
  {
    if n >= count {
      MeetsShifted(index, n, count);
      OneStrideMeets(index, n - count, count);
    }
  }

  lemma {:induction false} StridesAppend<T>(s: seq<T>, x: T, count: nat, upTo: nat)
    requires count > 0 && upTo <= count
    ensures Strides(s + [x], count, upTo)
            == Strides(s, count, upTo) + if Remainder(|s|, count) < upTo then multiset{x} else multiset{}
  {
    if upTo > 0 {
      var index := upTo - 1;
      StridesAppend(s, x, count, index);
      StrideAppend(s, x, index, count);
      OneStrideMeets(index, |s|, count);
    }
  }

  lemma {:induction false} StridesHoldAll<T>(s: seq<T>, count: nat)
    requires count > 0
    ensures Strides(s, count, count) == multiset(s)
  {
    if s == [] {
      NoStrides<T>(count, count);
    } else {
      var n := |s| - 1;
      assert s == s[..n] + [s[n]];
      StridesHoldAll(s[..n], count);
      StridesAppend(s[..n], s[n], count, count);
    }
  }

  lemma {:induction false} NoStrides<T>(count: nat, upTo: nat)
    requires count > 0
    ensures Strides<T>([], count, upTo) == multiset{}
  {
    if upTo > 0 { NoStrides<T>(count, upTo - 1); }
  }

  lemma {:induction false} LanesHoldStrides<T>(host: string, sources: seq<T>, count: nat, upTo: nat)
    requires 0 < count && upTo <= count
    ensures multiset(Flatten(LanesOf(host, sources, count)[..upTo])) == Strides(sources, count, upTo)
  {
    var lanes := LanesOf(host, sources, count);
    if upTo > 0 {
      assert lanes[..upTo][..upTo - 1] == lanes[..upTo - 1];
      LanesHoldStrides(host, sources, count, upTo - 1);
    }
  }

  ghost function OfHosts<T>(hosts: seq<string>, sources: seq<T>, hostOf: T -> string): multiset<T> {
    if hosts == [] then multiset{}
    else OfHosts(hosts[..|hosts| - 1], sources, hostOf) + multiset(OfHost(sources, hostOf, hosts[|hosts| - 1]))
  }

  /** Dealing a host's sources to its lanes loses none. */
  lemma DealingKeeps<T>(host: string, sources: seq<T>, count: nat)
    requires count > 0
    ensures multiset(Flatten(LanesOf(host, sources, count))) == multiset(sources)
  {
    var lanes := LanesOf(host, sources, count);
    LanesHoldStrides(host, sources, count, count);
    assert lanes[..count] == lanes;
    StridesHoldAll(sources, count);
  }

  lemma {:induction false} LanesHoldHosts<T>(
    hosts: seq<string>, sources: seq<T>, hostOf: T -> string, limit: string -> nat)
    requires forall h :: limit(h) >= 1
    ensures multiset(Flatten(LanesOfHosts(hosts, sources, hostOf, limit))) == OfHosts(hosts, sources, hostOf)
  {
    if hosts != [] {
      var n := |hosts| - 1;
      var host, before := hosts[n], LanesOfHosts(hosts[..n], sources, hostOf, limit);
      var mine := OfHost(sources, hostOf, host);
      LanesHoldHosts(hosts[..n], sources, hostOf, limit);
      if mine != [] {
        var lanes := LanesOf(host, mine, Min(|mine|, limit(host)));
        FlattenJoins(before, lanes);
        DealingKeeps(host, mine, Min(|mine|, limit(host)));
      } else {
        assert before + [] == before;
      }
    }
  }

  lemma {:induction false} OtherHostsUnchanged<T>(hosts: seq<string>, sources: seq<T>, hostOf: T -> string, source: T)
    requires hostOf(source) !in hosts
    ensures OfHosts(hosts, sources + [source], hostOf) == OfHosts(hosts, sources, hostOf)
  {
    if hosts != [] {
      OtherHostsUnchanged(hosts[..|hosts| - 1], sources, hostOf, source);
      assert (sources + [source])[..|sources|] == sources;
      assert hosts[|hosts| - 1] in hosts;
    }
  }

  lemma {:induction false} OneMoreSource<T>(hosts: seq<string>, sources: seq<T>, hostOf: T -> string, source: T)
    requires forall i, j :: 0 <= i < j < |hosts| ==> hosts[i] != hosts[j]
    requires hostOf(source) in hosts
    ensures OfHosts(hosts, sources + [source], hostOf) == OfHosts(hosts, sources, hostOf) + multiset{source}
  {
    var n := |hosts| - 1;
    var others, mine := hosts[..n], OfHost(sources, hostOf, hosts[n]);
    assert (sources + [source])[..|sources|] == sources;
    if hostOf(source) == hosts[n] {
      OtherHostsUnchanged(others, sources, hostOf, source);
      assert multiset(mine + [source]) == multiset(mine) + multiset{source};
    } else {
      OneMoreSource(others, sources, hostOf, source);
      Swap(OfHosts(others, sources, hostOf), multiset(mine), source);
    }
  }

  lemma Swap<T>(a: multiset<T>, b: multiset<T>, x: T)
    ensures a + multiset{x} + b == a + b + multiset{x}
  {
  }

  lemma {:induction false} NothingOfNoSources<T>(hosts: seq<string>, hostOf: T -> string)
    ensures OfHosts(hosts, [], hostOf) == multiset{}
  {
    if hosts != [] { NothingOfNoSources(hosts[..|hosts| - 1], hostOf); }
  }

  lemma {:induction false} HostsHoldAll<T>(hosts: seq<string>, sources: seq<T>, hostOf: T -> string)
    requires forall i, j :: 0 <= i < j < |hosts| ==> hosts[i] != hosts[j]
    requires forall i :: 0 <= i < |sources| ==> hostOf(sources[i]) in hosts
    ensures OfHosts(hosts, sources, hostOf) == multiset(sources)
  {
    if sources == [] {
      NothingOfNoSources(hosts, hostOf);
    } else {
      var n := |sources| - 1;
      assert sources == sources[..n] + [sources[n]];
      HostsHoldAll(hosts, sources[..n], hostOf);
      OneMoreSource(hosts, sources[..n], hostOf, sources[n]);
    }
  }

  /** Every source given is in exactly as many lanes as it was given: the lanes are a partition of the load. */
  lemma LanesPartitionTheSources<T>(
    hosts: seq<string>, sources: seq<T>, hostOf: T -> string, limit: string -> nat)
    requires forall h :: limit(h) >= 1
    requires AreHostsOf(hosts, sources, hostOf)
    ensures multiset(Flatten(LanesOfHosts(hosts, sources, hostOf, limit))) == multiset(sources)
  {
    LanesHoldHosts(hosts, sources, hostOf, limit);
    HostsHoldAll(hosts, sources, hostOf);
  }

  // Each lane is of one host, and a host's lanes respect its limit

  /** What a lane may send its host at once: one request when the host's lanes share it, else all the host allows. */
  function Requests<T>(lane: Lane<T>, limit: string -> nat): nat {
    if lane.shared then 1 else limit(lane.host)
  }

  ghost function RequestsTo<T>(host: string, lanes: seq<Lane<T>>, limit: string -> nat): nat {
    if lanes == [] then 0
    else
      var last := lanes[|lanes| - 1];
      RequestsTo(host, lanes[..|lanes| - 1], limit) + if last.host == host then Requests(last, limit) else 0
  }

  lemma {:induction false} RequestsJoin<T>(host: string, a: seq<Lane<T>>, b: seq<Lane<T>>, limit: string -> nat)
    ensures RequestsTo(host, a + b, limit) == RequestsTo(host, a, limit) + RequestsTo(host, b, limit)
  {
    if b != [] {
      var n := |b| - 1;
      assert (a + b)[..|a + b| - 1] == a + b[..n];
      RequestsJoin(host, a, b[..n], limit);
    } else {
      assert a + b == a;
    }
  }

  lemma {:induction false} SharedLanesSendOneEach<T>(
    host: string, other: string, sources: seq<T>, count: nat, upTo: nat, limit: string -> nat)
    requires count > 0 && upTo <= count
    ensures RequestsTo(other, LanesOf(host, sources, count)[..upTo], limit)
            == if other != host then 0 else if count > 1 then upTo else upTo * limit(host)
  {
    var lanes := LanesOf(host, sources, count);
    if upTo > 0 {
      assert lanes[..upTo][..upTo - 1] == lanes[..upTo - 1];
      SharedLanesSendOneEach(host, other, sources, count, upTo - 1, limit);
    }
  }

  lemma LanesOfHostLimit<T>(host: string, other: string, sources: seq<T>, limit: string -> nat)
    requires sources != [] && limit(host) >= 1
    ensures RequestsTo(other, LanesOf(host, sources, Min(|sources|, limit(host))), limit)
            <= if other == host then limit(host) else 0
  {
    var count := Min(|sources|, limit(host));
    SharedLanesSendOneEach(host, other, sources, count, count, limit);
    assert LanesOf(host, sources, count)[..count] == LanesOf(host, sources, count);
  }

  /** The requests all the lanes of a host may send it at once never exceed its limit. */
  lemma {:induction false} HostLimitHolds<T>(
    hosts: seq<string>, sources: seq<T>, hostOf: T -> string, limit: string -> nat, host: string)
    requires forall h :: limit(h) >= 1
    requires forall i, j :: 0 <= i < j < |hosts| ==> hosts[i] != hosts[j]
    ensures RequestsTo(host, LanesOfHosts(hosts, sources, hostOf, limit), limit) <= if host in hosts then limit(host) else 0
  {
    if hosts != [] {
      var n := |hosts| - 1;
      var last, before := hosts[n], LanesOfHosts(hosts[..n], sources, hostOf, limit);
      var mine := OfHost(sources, hostOf, last);
      HostLimitHolds(hosts[..n], sources, hostOf, limit, host);
      assert hosts == hosts[..n] + [last];
      if mine != [] {
        var lanes := LanesOf(last, mine, Min(|mine|, limit(last)));
        RequestsJoin(host, before, lanes, limit);
        LanesOfHostLimit(last, host, mine, limit);
      } else {
        assert before + [] == before;
      }
    }
  }

  lemma {:induction false} OfHostIsOfHost<T>(sources: seq<T>, hostOf: T -> string, host: string)
    ensures forall s :: s in OfHost(sources, hostOf, host) ==> s in sources && hostOf(s) == host
  {
    if sources != [] {
      var n := |sources| - 1;
      assert sources == sources[..n] + [sources[n]];
      OfHostIsOfHost(sources[..n], hostOf, host);
    }
  }

  lemma {:induction false} StrideWithin<T>(s: seq<T>, index: nat, count: nat)
    requires count > 0
    ensures forall x :: x in Stride(s, index, count) ==> x in s
    decreases |s| - index
  {
    if index < |s| { StrideWithin(s, index + count, count); }
  }

  /** A lane holds sources of its own host only, and is never empty. */
  lemma {:induction false} LanesAreOfOneHost<T>(
    hosts: seq<string>, sources: seq<T>, hostOf: T -> string, limit: string -> nat, lane: Lane<T>)
    requires forall h :: limit(h) >= 1
    requires lane in LanesOfHosts(hosts, sources, hostOf, limit)
    ensures lane.sources != [] && lane.host in hosts
    ensures forall s :: s in lane.sources ==> s in sources && hostOf(s) == lane.host
  {
    var n := |hosts| - 1;
    var host, before := hosts[n], LanesOfHosts(hosts[..n], sources, hostOf, limit);
    var mine := OfHost(sources, hostOf, host);
    if lane in before {
      LanesAreOfOneHost(hosts[..n], sources, hostOf, limit, lane);
    } else {
      var count := Min(|mine|, limit(host));
      var index :| 0 <= index < count && LanesOf(host, mine, count)[index] == lane;
      StrideLength(mine, index, count);
      StrideWithin(mine, index, count);
      OfHostIsOfHost(sources, hostOf, host);
    }
  }
}

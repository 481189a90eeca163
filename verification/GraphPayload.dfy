/**
 The answers of the graph page: `Graph.node`, `edge` and `cut`, the events of a person
 (`_events_of`) and the neighbours of an event (`expand_event`).
 */
module GraphPayload {
  import opened Wrappers
  import opened Dicts
  import opened Sorting
  import opened Reports
  import opened Clusters
  import opened NodeIds

  const PERSON_EVENTS: nat := 20
  const EVENT_PEOPLE: nat := 20
  const EVENT_NEIGHBOURS: nat := 20
  const EVENT_PUBLICATIONS: nat := 10

  datatype Node = Node(id: string, kind: string)
  datatype Edge = Edge(start: string, end: string, kind: string)
  datatype Cut = Cut(node: string, kind: string, count: int)

  function Min(a: nat, b: nat): nat { if a < b then a else b }

  /** What `cut` adds for `total` things of which `limit` may be drawn. */
  function CutOf(node: string, kind: string, total: nat, limit: nat): seq<Cut> {
    if total > limit then [Cut(node, kind, total - limit)] else []
  }

  /** Drawn plus counted is all, whatever the limit. */
  lemma DrawnPlusCut(node: string, kind: string, total: nat, limit: nat)
    ensures CutOf(node, kind, total, limit) == [] <==> Min(total, limit) == total
    ensures CutOf(node, kind, total, limit) != [] ==>
              |CutOf(node, kind, total, limit)| == 1 && Min(total, limit) + CutOf(node, kind, total, limit)[0].count == total
  {
  }

  /** An edge under its own name, with both its nodes drawn. */
  ghost predicate Anchored(nodes: map<string, Node>, id: string, e: Edge) {
    id == EdgeId(e.start, e.end, e.kind) && e.start in nodes && e.end in nodes
  }

  /** The type of a node is what its name says it is. */
  ghost predicate KindFits(id: string, kind: string) {
    && (kind == "person" <==> "person:" <= id)
    && (kind == "event" <==> "event:" <= id)
    && (kind == "publication" <==> "publication:" <= id)
    && (kind == "court" <==> "org:court:" <= id)
    && (kind == "authority" <==> "org:authority:" <= id)
    && (kind == "criminal_article" || kind == "administrative_article" <==> "article:" <= id)
  }

  ghost predicate TypedAt(nodes: map<string, Node>, id: string) { id in nodes ==> KindFits(id, nodes[id].kind) }

  lemma PersonFits(key: string)
    ensures KindFits(PersonNode(key), "person")
  {
    assert PersonNode(key)[0] == 'p' && PersonNode(key)[1] == 'e';
  }

  lemma EventFits(id: nat)
    ensures KindFits(EventNode(id), "event")
  {
    assert EventNode(id)[0] == 'e';
  }

  lemma PublicationFits(article: nat)
    ensures KindFits(PublicationNode(article), "publication")
  {
    assert PublicationNode(article)[0] == 'p' && PublicationNode(article)[1] == 'u';
  }

  lemma OrgFits(role: string, folded: string)
    requires role == "court" || role == "authority"
    ensures KindFits(OrgNode(role, folded), role)
  {
    var id := OrgNode(role, folded);
    assert id == "org:" + (role + ":" + folded);
    assert id[0] == 'o' && id[4] == role[0];
    assert role == "court" ==> id == "org:court:" + folded;
    assert role == "authority" ==> id == "org:authority:" + folded;
  }

  lemma ArticleFits(head: string, article: string, kind: string)
    requires kind == "criminal_article" || kind == "administrative_article"
    ensures KindFits(ArticleNode(head, article), kind)
  {
    var id := ArticleNode(head, article);
    assert id == "article:" + (head + ":" + article);
    assert id[0] == 'a';
  }

  class Graph {
    var nodes: Dict<string, Node>
    var edges: Dict<string, Edge>
    var more: seq<Cut>
    var center: Option<string>

    /** Every node and edge under its own name, each node of the type its name says, and no edge without both its nodes. */
    ghost predicate Closed()
      reads this`nodes, this`edges
    {
      && nodes.Valid() && edges.Valid()
      && (forall id {:trigger nodes.items[id]} :: id in nodes.items ==> nodes.items[id].id == id)
      && (forall id {:trigger TypedAt(nodes.items, id)} :: id in nodes.items ==> TypedAt(nodes.items, id))
      && (forall id {:trigger Anchored(nodes.items, id, edges.items[id])} :: id in edges.items ==>
            Anchored(nodes.items, id, edges.items[id]))
    }

    constructor ()
      ensures Closed() && nodes.keys == [] && edges.keys == [] && more == [] && center == None
    {
      nodes := Empty();
      edges := Empty();
      more := [];
      center := None;
    }

    method AddNode(id: string, kind: string)
      requires Closed() && KindFits(id, kind)
      modifies this`nodes
      ensures Closed() && nodes.items.Keys == old(nodes.items.Keys) + {id}
      ensures Keeps(old(nodes.items), nodes.items)
      ensures id !in old(nodes.items) ==> nodes.items[id].kind == kind
    {
      ghost var before := nodes.items;
      nodes := nodes.SetDefault(id, Node(id, kind));
      forall x | x in edges.items
        ensures Anchored(nodes.items, x, edges.items[x])
      {
        assert Anchored(before, x, edges.items[x]);
      }
      forall x | x in nodes.items
        ensures TypedAt(nodes.items, x)
      {
        assert TypedAt(before, x);
      }
    }

    method AddEdge(start: string, end: string, kind: string)
      requires Closed() && start in nodes.items && end in nodes.items
      modifies this`edges
      ensures Closed()
      ensures edges.keys == (if EdgeId(start, end, kind) in old(edges.keys) then old(edges.keys)
                             else old(edges.keys) + [EdgeId(start, end, kind)])
    {
      var id := EdgeId(start, end, kind);
      ghost var before := edges.items;
      edges := edges.SetDefault(id, Edge(start, end, kind));
      forall x | x in edges.items
        ensures Anchored(nodes.items, x, edges.items[x])
      {
        if x in before { assert Anchored(nodes.items, x, before[x]); }
      }
    }

    method AddCut(node: string, kind: string, count: int)
      modifies this`more
      ensures more == old(more) + if count > 0 then [Cut(node, kind, count)] else []
    {
      if count > 0 { more := more + [Cut(node, kind, count)]; }
    }
  }

  /** The nodes drawn before, as they were drawn. */
  ghost predicate Keeps(before: map<string, Node>, nodes: map<string, Node>) {
    forall x {:trigger nodes[x]} {:trigger before[x]} :: x in before ==> x in nodes && nodes[x] == before[x]
  }

  ghost predicate Distinct<T>(s: seq<T>) {
    forall i, j :: 0 <= i < j < |s| ==> s[i] != s[j]
  }

  lemma NextIsNew<T>(before: seq<T>, ids: seq<T>, i: nat)
    requires Distinct(before + ids) && i < |ids|
    ensures ids[i] !in before + ids[..i]
    ensures before + ids[..i + 1] == before + ids[..i] + [ids[i]]
  {
    var all := before + ids;
    assert all[|before| + i] == ids[i];
    assert all[..|before| + i] == before + ids[..i];
  }

  ghost function Members(ids: seq<string>): set<string> { set id | id in ids }

  lemma MembersNext(ids: seq<string>, i: nat)
    requires i < |ids|
    ensures Members(ids[..i + 1]) == Members(ids[..i]) + {ids[i]}
  {
    assert ids[..i + 1] == ids[..i] + [ids[i]];
  }

  lemma MembersOfAll(ids: seq<string>)
    ensures Members(ids[..0]) == {} && Members(ids[..|ids|]) == Members(ids)
  {
    assert ids[..|ids|] == ids;
  }

  // Drawing one thing after another

  /** Some things to draw around a node, each by an edge of its own, onto what is drawn already. */
  datatype Plan = Plan(before: seq<string>, base: map<string, Node>, edges: seq<string>, ends: seq<string>)

  ghost predicate OwnEdges(plan: Plan) { |plan.ends| == |plan.edges| && Distinct(plan.before + plan.edges) }

  ghost predicate Drew(graph: Graph, plan: Plan, i: nat)
    requires i <= |plan.edges| && |plan.ends| == |plan.edges|
    reads graph`nodes, graph`edges
  {
    && graph.Closed()
    && graph.edges.keys == plan.before + plan.edges[..i]
    && graph.nodes.items.Keys == plan.base.Keys + Members(plan.ends[..i])
    && Keeps(plan.base, graph.nodes.items)
  }

  lemma NextDrawn(plan: Plan, i: nat)
    requires OwnEdges(plan) && i < |plan.edges|
    ensures plan.edges[i] !in plan.before + plan.edges[..i]
    ensures plan.before + plan.edges[..i + 1] == plan.before + plan.edges[..i] + [plan.edges[i]]
    ensures plan.base.Keys + Members(plan.ends[..i + 1]) == plan.base.Keys + Members(plan.ends[..i]) + {plan.ends[i]}
  {
    NextIsNew(plan.before, plan.edges, i);
    MembersNext(plan.ends, i);
  }

  /** The next thing: its node, and the edge from the centre to it. */
  method Attach(graph: Graph, center: string, node: string, kind: string, edgeKind: string, ghost plan: Plan, ghost i: nat)
    requires OwnEdges(plan) && i < |plan.edges| && center in plan.base && Drew(graph, plan, i)
    requires plan.ends[i] == node && plan.edges[i] == EdgeId(center, node, edgeKind) && KindFits(node, kind)
    modifies graph`nodes, graph`edges
    ensures Drew(graph, plan, i + 1)
  {
    NextDrawn(plan, i);
    graph.AddNode(node, kind);
    graph.AddEdge(center, node, edgeKind);
  }

  lemma NothingDrawn(graph: Graph, plan: Plan)
    requires graph.Closed() && graph.edges.keys == plan.before && graph.nodes.items == plan.base && |plan.ends| == |plan.edges|
    ensures Drew(graph, plan, 0)
  {
    MembersOfAll(plan.ends);
  }

  lemma AllDrawn(graph: Graph, plan: Plan)
    requires |plan.ends| == |plan.edges| && Drew(graph, plan, |plan.edges|)
    ensures graph.edges.keys == plan.before + plan.edges && graph.nodes.items.Keys == plan.base.Keys + Members(plan.ends)
    ensures Keeps(plan.base, graph.nodes.items)
  {
    MembersOfAll(plan.ends);
    assert plan.edges[..|plan.edges|] == plan.edges;
  }

  // The events of a person

  /** An event of a person: its first report, its day, and the person's role over all its reports. */
  datatype Shown = Shown(root: Id, day: Option<Day>, role: Role)

  const MIN_DAY: Day := 1

  predicate Earlier(a: Shown, b: Shown) {
    var dayA, dayB := if a.day.Some? then a.day.value else MIN_DAY, if b.day.Some? then b.day.value else MIN_DAY;
    dayA < dayB || (dayA == dayB && a.root < b.root)
  }

  /** `sort(key=..., reverse=True)` */
  predicate LatestFirst(a: Shown, b: Shown) { !Earlier(a, b) }

  ghost predicate OfReports(reports: map<Id, Report>, events: seq<seq<Id>>) {
    forall k :: 0 <= k < |events| ==> events[k] != [] && forall id :: id in events[k] ==> id in reports
  }

  ghost predicate IsRootOf(events: seq<seq<Id>>, root: Id) {
    exists k :: 0 <= k < |events| && events[k] != [] && events[k][0] == root
  }

  ghost predicate RootsAscend(events: seq<seq<Id>>) {
    && (forall k :: 0 <= k < |events| ==> events[k] != [])
    && (forall j, k :: 0 <= j < k < |events| ==> events[j][0] < events[k][0])
  }

  function ShownOf(reports: map<Id, Report>, events: seq<seq<Id>>, group: Group): (shown: seq<Shown>)
    requires OfReports(reports, events)
  {
    if events == [] then []
    else
      var event := events[0];
      var id := event[0];
      assert id in event;
      var role := RoleOf(reports, event, group);
      (if role.Some? then [Shown(id, reports[id].fact.day, role.value)] else [])
      + ShownOf(reports, events[1..], group)
  }

  /** The person's events, no two of one root, since the events come in ascending roots. */
  lemma {:induction false} ShownRootsAscend(reports: map<Id, Report>, events: seq<seq<Id>>, group: Group)
    requires OfReports(reports, events) && RootsAscend(events)
    ensures forall i, j :: 0 <= i < j < |ShownOf(reports, events, group)| ==>
              ShownOf(reports, events, group)[i].root < ShownOf(reports, events, group)[j].root
    ensures forall s :: s in ShownOf(reports, events, group) ==>
              IsRootOf(events, s.root)
  {
    if events != [] {
      ShownRootsAscend(reports, events[1..], group);
      var rest := ShownOf(reports, events[1..], group);
      forall s | s in rest
        ensures IsRootOf(events, s.root) && events[0][0] < s.root
      {
        var k :| 0 <= k < |events[1..]| && events[1..][k] != [] && s.root == events[1..][k][0];
        assert events[k + 1] == events[1..][k];
      }
    }
  }

  function Latest(shown: seq<Shown>): seq<Shown> {
    Sort(shown, LatestFirst)
  }

  /** The events drawn are the latest: none that is cut is later than one that is drawn. */
  lemma LatestAreFirst(shown: seq<Shown>, i: nat, j: nat)
    requires i < j < |shown|
    ensures multiset(Latest(shown)) == multiset(shown)
    ensures !Earlier(Latest(shown)[i], Latest(shown)[j])
  {
    SortIsOrdered(shown, LatestFirst);
  }

  function EventEdge(person: string, shown: Shown): string
    requires shown.root >= 0
  {
    EdgeId(person, EventNode(shown.root), shown.role)
  }

  ghost function EventEdges(person: string, shown: seq<Shown>): seq<string>
    requires RootsDiffer(shown)
  {
    seq(|shown|, i requires 0 <= i < |shown| => EventEdge(person, shown[i]))
  }

  ghost function EventNodes(shown: seq<Shown>): seq<string>
    requires RootsDiffer(shown)
  {
    seq(|shown|, i requires 0 <= i < |shown| => EventNode(shown[i].root))
  }

  lemma {:induction false} SortKeepsRootsDistinct(shown: seq<Shown>)
    requires forall i, j :: 0 <= i < j < |shown| ==> shown[i].root < shown[j].root
    ensures forall i, j :: 0 <= i < j < |Latest(shown)| ==> Latest(shown)[i].root != Latest(shown)[j].root
    ensures forall s :: s in Latest(shown) ==> s in shown
  {
    var latest := Latest(shown);
    forall s | s in latest
      ensures s in shown
    {
      assert s in multiset(latest);
    }
    forall i, j | 0 <= i < j < |latest|
      ensures latest[i].root != latest[j].root
    {
      if latest[i].root == latest[j].root {
        assert latest[i] in shown && latest[j] in shown;
        DuplicateCountsTwice(latest, i, j);
        DistinctCountsOnce(shown, latest[i]);
        assert false;
      }
    }
  }

  ghost predicate RootsDiffer(shown: seq<Shown>) {
    && (forall i :: 0 <= i < |shown| ==> shown[i].root >= 0)
    && (forall i, j :: 0 <= i < j < |shown| ==> shown[i].root != shown[j].root)
  }

  lemma EventEdgesDiffer(person: string, shown: seq<Shown>)
    requires RootsDiffer(shown)
    ensures Distinct(EventEdges(person, shown))
  {
    forall i, j | 0 <= i < j < |shown|
      ensures EventEdge(person, shown[i]) != EventEdge(person, shown[j])
    {
      if EventEdge(person, shown[i]) == EventEdge(person, shown[j]) {
        PersonEdgesDiffer(person, shown[i].root, shown[i].role, shown[j].root, shown[j].role);
      }
    }
  }

  method DrawEventEdges(graph: Graph, person: string, shown: seq<Shown>)
    requires graph.Closed() && graph.edges.keys == [] && person in graph.nodes.items
    requires RootsDiffer(shown)
    modifies graph`nodes, graph`edges
    ensures graph.Closed() && person in graph.nodes.items
    ensures graph.edges.keys == EventEdges(person, shown)
    ensures graph.nodes.items.Keys == old(graph.nodes.items.Keys) + Members(EventNodes(shown))
  {
    ghost var plan := Plan([], graph.nodes.items, EventEdges(person, shown), EventNodes(shown));
    EventEdgesDiffer(person, shown);
    assert [] + plan.edges == plan.edges;
    NothingDrawn(graph, plan);
    for i := 0 to |shown|
      invariant Drew(graph, plan, i)
    {
      EventFits(shown[i].root);
      Attach(graph, person, EventNode(shown[i].root), "event", shown[i].role, plan, i);
    }
    AllDrawn(graph, plan);
  }

  lemma LatestRootsDiffer(reports: map<Id, Report>, events: seq<seq<Id>>, group: Group)
    requires OfReports(reports, events) && RootsAscend(events)
    requires forall id :: id in reports ==> id >= 0
    ensures RootsDiffer(Latest(ShownOf(reports, events, group)))
  {
    var shown := ShownOf(reports, events, group);
    var latest := Latest(shown);
    ShownRootsAscend(reports, events, group);
    SortKeepsRootsDistinct(shown);
    forall i | 0 <= i < |latest|
      ensures latest[i].root >= 0
    {
      assert latest[i] in latest;
      assert latest[i] in shown;
      var k :| 0 <= k < |events| && events[k] != [] && events[k][0] == latest[i].root;
      assert events[k][0] in events[k];
    }
  }

  /** The events drawn for a person: the latest, up to the limit. */
  function FirstShown(reports: map<Id, Report>, events: seq<seq<Id>>, group: Group, limit: nat): seq<Shown>
    requires OfReports(reports, events)
  {
    var latest := Latest(ShownOf(reports, events, group));
    latest[..Min(|latest|, limit)]
  }

  /** All the person's events, drawn or not. */
  function EventCount(reports: map<Id, Report>, events: seq<seq<Id>>, group: Group): nat
    requires OfReports(reports, events)
  {
    |ShownOf(reports, events, group)|
  }

  /** The roots of the events in which some report gives the person a role. */
  ghost function NamedRoots(reports: map<Id, Report>, events: seq<seq<Id>>, group: Group): set<Id>
    requires OfReports(reports, events)
  {
    set k | 0 <= k < |events| && RoleOf(reports, events[k], group).Some? :: events[k][0]
  }

  /** An event as it is drawn: its least report, that report's day, and the person's role over the event. */
  ghost predicate ShownAs(reports: map<Id, Report>, event: seq<Id>, group: Group, s: Shown)
    requires event != [] && forall id :: id in event ==> id in reports
  {
    && event[0] == s.root && s.root in reports && s.day == reports[s.root].fact.day
    && RoleOf(reports, event, group) == Some(s.role)
  }

  ghost predicate IsShown(reports: map<Id, Report>, events: seq<seq<Id>>, group: Group, s: Shown)
    requires OfReports(reports, events)
  {
    exists k :: 0 <= k < |events| && ShownAs(reports, events[k], group, s)
  }

  /** `event.day or date.min`: the day an event is sorted by. */
  ghost function SortDay(day: Option<Day>): Day { if day.Some? then day.value else 1 }

  /**
   `shown` are the latest of the person's events: as many as there are, or as the limit lets
   through; each as it is drawn; and every one left out is of an earlier day, or of the same day
   and a lesser root, than every one shown.
   */
  ghost predicate AreLatest(reports: map<Id, Report>, events: seq<seq<Id>>, group: Group, limit: nat, shown: seq<Shown>)
    requires OfReports(reports, events)
  {
    var named := NamedRoots(reports, events, group);
    && |shown| == (if |named| <= limit then |named| else limit)
    && (forall i, j :: 0 <= i < j < |shown| ==> shown[i].root != shown[j].root)
    && (forall i :: 0 <= i < |shown| ==> IsShown(reports, events, group, shown[i]))
    && (forall i, j :: 0 <= i < j < |shown| ==> ComesAfter(shown[i].day, shown[i].root, shown[j].day, shown[j].root))
    && (forall r, i :: r in named && r in reports && 0 <= i < |shown| && (forall j :: 0 <= j < |shown| ==> shown[j].root != r)
          ==> ComesAfter(shown[i].day, shown[i].root, reports[r].fact.day, r))
  }

  ghost predicate ComesAfter(day: Option<Day>, root: Id, otherDay: Option<Day>, other: Id) {
    SortDay(day) > SortDay(otherDay) || (SortDay(day) == SortDay(otherDay) && root > other)
  }

  lemma {:induction false} ShownAre(reports: map<Id, Report>, events: seq<seq<Id>>, group: Group)
    requires OfReports(reports, events)
    ensures forall s :: s in ShownOf(reports, events, group) <==> IsShown(reports, events, group, s)
  {
    if events != [] {
      ShownAre(reports, events[1..], group);
      assert events[0][0] in events[0];
      forall s
        ensures s in ShownOf(reports, events, group) <==> IsShown(reports, events, group, s)
      {
        ShownAtNext(reports, events, group, s);
      }
    }
  }

  lemma ShownAtNext(reports: map<Id, Report>, events: seq<seq<Id>>, group: Group, s: Shown)
    requires OfReports(reports, events) && events != []
    ensures IsShown(reports, events, group, s)
            <==> ShownAs(reports, events[0], group, s) || IsShown(reports, events[1..], group, s)
  {
    if k :| 0 <= k < |events| && ShownAs(reports, events[k], group, s) {
      if k > 0 { assert ShownAs(reports, events[1..][k - 1], group, s); }
    }
    if k :| 0 <= k < |events[1..]| && ShownAs(reports, events[1..][k], group, s) {
      assert ShownAs(reports, events[k + 1], group, s);
    }
  }

  ghost function RootSet(shown: seq<Shown>): set<Id> { set i | 0 <= i < |shown| :: shown[i].root }

  lemma {:induction false} RootsCount(shown: seq<Shown>)
    requires forall i, j :: 0 <= i < j < |shown| ==> shown[i].root != shown[j].root
    ensures |RootSet(shown)| == |shown|
  {
    if shown != [] {
      var n := |shown| - 1;
      RootsCount(shown[..n]);
      assert RootSet(shown) == RootSet(shown[..n]) + {shown[n].root};
    }
  }

  lemma NamedAreShown(reports: map<Id, Report>, events: seq<seq<Id>>, group: Group)
    requires OfReports(reports, events) && RootsAscend(events)
    ensures RootSet(ShownOf(reports, events, group)) == NamedRoots(reports, events, group)
    ensures |ShownOf(reports, events, group)| == |NamedRoots(reports, events, group)|
  {
    var shown, named := ShownOf(reports, events, group), NamedRoots(reports, events, group);
    ShownAre(reports, events, group);
    ShownRootsAscend(reports, events, group);
    forall r
      ensures r in RootSet(shown) <==> r in named
    {
      if r in RootSet(shown) {
        var i :| 0 <= i < |shown| && shown[i].root == r;
        assert shown[i] in shown;
      }
      if r in named {
        var k :| 0 <= k < |events| && RoleOf(reports, events[k], group).Some? && events[k][0] == r;
        var s := Shown(r, reports[r].fact.day, RoleOf(reports, events[k], group).value);
        assert ShownAs(reports, events[k], group, s);
        assert s in shown;
      }
    }
    RootsCount(shown);
  }

  lemma LatestComeAfter(shown: seq<Shown>, i: nat, j: nat)
    requires i < j < |shown| && RootsDiffer(Latest(shown))
    ensures
      var latest := Latest(shown);
      ComesAfter(latest[i].day, latest[i].root, latest[j].day, latest[j].root)
  {
    LatestAreFirst(shown, i, j);
  }

  lemma LeftOutIsLater(
    reports: map<Id, Report>, events: seq<seq<Id>>, group: Group, limit: nat, r: Id) returns (j: nat)
    requires OfReports(reports, events) && RootsAscend(events) && r in NamedRoots(reports, events, group)
    requires forall i :: 0 <= i < |FirstShown(reports, events, group, limit)| ==>
               FirstShown(reports, events, group, limit)[i].root != r
    ensures
      var latest := Latest(ShownOf(reports, events, group));
      && |FirstShown(reports, events, group, limit)| <= j < |latest| && latest[j].root == r
      && r in reports && latest[j].day == reports[r].fact.day
  {
    var shown := ShownOf(reports, events, group);
    var latest := Latest(shown);
    NamedAreShown(reports, events, group);
    ShownAre(reports, events, group);
    assert r in RootSet(shown);
    var i :| 0 <= i < |shown| && shown[i].root == r;
    assert shown[i] in multiset(latest);
    j :| 0 <= j < |latest| && latest[j] == shown[i];
    assert shown[i] in shown;
    var first := FirstShown(reports, events, group, limit);
    assert forall i :: 0 <= i < |first| ==> first[i] == latest[i];
  }

  /** The events drawn for a person are the latest of those that name them. */
  lemma FirstShownAreLatest(reports: map<Id, Report>, events: seq<seq<Id>>, group: Group, limit: nat)
    requires OfReports(reports, events) && RootsAscend(events)
    requires forall id :: id in reports ==> id >= 0
    ensures AreLatest(reports, events, group, limit, FirstShown(reports, events, group, limit))
    ensures EventCount(reports, events, group) == |NamedRoots(reports, events, group)|
  {
    var all, shown := ShownOf(reports, events, group), FirstShown(reports, events, group, limit);
    var latest := Latest(all);
    LatestRootsDiffer(reports, events, group);
    NamedAreShown(reports, events, group);
    ShownAre(reports, events, group);
    forall i | 0 <= i < |shown|
      ensures IsShown(reports, events, group, shown[i])
    {
      assert shown[i] in multiset(latest);
    }
    forall i, j | 0 <= i < j < |shown|
      ensures ComesAfter(shown[i].day, shown[i].root, shown[j].day, shown[j].root)
    {
      LatestComeAfter(all, i, j);
    }
    forall r, i | r in NamedRoots(reports, events, group) && r in reports && 0 <= i < |shown|
                  && forall j :: 0 <= j < |shown| ==> shown[j].root != r
      ensures ComesAfter(shown[i].day, shown[i].root, reports[r].fact.day, r)
    {
      var j := LeftOutIsLater(reports, events, group, limit, r);
      LatestComeAfter(all, i, j);
    }
  }

  lemma FirstShownDiffer(reports: map<Id, Report>, events: seq<seq<Id>>, group: Group, limit: nat)
    requires OfReports(reports, events) && RootsAscend(events)
    requires forall id :: id in reports ==> id >= 0
    ensures RootsDiffer(FirstShown(reports, events, group, limit))
  {
    LatestRootsDiffer(reports, events, group);
  }

  /**
   `_events_of`: one edge to each of the latest events, and the rest counted. Nothing is
   lost to a name already taken.
   */
  method DrawEvents(
    graph: Graph, person: string, reports: map<Id, Report>, events: seq<seq<Id>>, group: Group, limit: nat)
    requires graph.Closed() && graph.edges.keys == [] && person in graph.nodes.items
    requires OfReports(reports, events) && RootsAscend(events)
    requires forall id :: id in reports ==> id >= 0
    modifies graph`nodes, graph`edges, graph`more
    ensures graph.Closed() && person in graph.nodes.items
    ensures
      var shown := FirstShown(reports, events, group, limit);
      && RootsDiffer(shown) && AreLatest(reports, events, group, limit, shown)
      && graph.edges.keys == EventEdges(person, shown)
      && graph.nodes.items.Keys == old(graph.nodes.items.Keys) + Members(EventNodes(shown))
    ensures graph.more == old(graph.more) + CutOf(person, "event", |NamedRoots(reports, events, group)|, limit)
  {
    FirstShownDiffer(reports, events, group, limit);
    DrawEventEdges(graph, person, FirstShown(reports, events, group, limit));
    graph.AddCut(person, "event", EventCount(reports, events, group) - limit);
    FirstShownAreLatest(reports, events, group, limit);
  }

  /** `initial_graph`: the person in the centre, their latest events, and the people of the same publications. */
  method InitialGraph(
    key: string, reports: map<Id, Report>, events: seq<seq<Id>>, group: Group, related: seq<string>)
    returns (graph: Graph)
    requires IsClustering(reports, events)
    requires forall id :: id in reports ==> id >= 0
    requires Distinct(related)
    ensures fresh(graph) && graph.Closed()
    ensures graph.center == Some(PersonNode(key)) && PersonNode(key) in graph.nodes.items
    ensures OfReports(reports, events)
    ensures
      var center, shown := PersonNode(key), FirstShown(reports, events, group, 20);
      && RootsDiffer(shown) && AreLatest(reports, events, group, 20, shown)
      && graph.edges.keys == EventEdges(center, shown) + RelatedEdges(center, related)
      && graph.nodes.items.Keys == {center} + Members(EventNodes(shown)) + Members(RelatedNodes(related))
    ensures graph.more == CutOf(PersonNode(key), "event", |NamedRoots(reports, events, group)|, 20)
  {
    EventsAreReports(reports, events);
    PersonFits(key);
    graph := DrawAround(PersonNode(key), reports, events, group, related);
  }

  method DrawAround(center: string, reports: map<Id, Report>, events: seq<seq<Id>>, group: Group, related: seq<string>)
    returns (graph: Graph)
    requires OfReports(reports, events) && RootsAscend(events) && Distinct(related) && KindFits(center, "person")
    requires forall id :: id in reports ==> id >= 0
    ensures fresh(graph) && graph.Closed() && graph.center == Some(center) && center in graph.nodes.items
    ensures
      var shown := FirstShown(reports, events, group, PERSON_EVENTS);
      && RootsDiffer(shown) && AreLatest(reports, events, group, PERSON_EVENTS, shown)
      && graph.edges.keys == EventEdges(center, shown) + RelatedEdges(center, related)
      && graph.nodes.items.Keys == {center} + Members(EventNodes(shown)) + Members(RelatedNodes(related))
    ensures graph.more == CutOf(center, "event", |NamedRoots(reports, events, group)|, PERSON_EVENTS)
  {
    graph := DrawWithEvents(center, reports, events, group);
    DrawRelated(graph, center, FirstShown(reports, events, group, PERSON_EVENTS), related);
  }

  method DrawWithEvents(center: string, reports: map<Id, Report>, events: seq<seq<Id>>, group: Group) returns (graph: Graph)
    requires KindFits(center, "person")
    requires OfReports(reports, events) && RootsAscend(events) && forall id :: id in reports ==> id >= 0
    ensures fresh(graph) && graph.Closed() && graph.center == Some(center) && center in graph.nodes.items
    ensures
      var shown := FirstShown(reports, events, group, PERSON_EVENTS);
      && RootsDiffer(shown) && AreLatest(reports, events, group, PERSON_EVENTS, shown)
      && graph.edges.keys == EventEdges(center, shown)
      && graph.nodes.items.Keys == {center} + Members(EventNodes(shown))
    ensures graph.more == CutOf(center, "event", |NamedRoots(reports, events, group)|, PERSON_EVENTS)
  {
    graph := DrawCentre(center);
    DrawEvents(graph, center, reports, events, group, PERSON_EVENTS);
  }

  method DrawCentre(person: string) returns (graph: Graph)
    requires KindFits(person, "person")
    ensures fresh(graph) && graph.Closed() && graph.center == Some(person) && graph.nodes.items.Keys == {person}
    ensures graph.edges.keys == [] && graph.more == []
  {
    graph := new Graph();
    graph.AddNode(person, "person");
    graph.center := Some(person);
  }

  ghost function RelatedEdges(center: string, related: seq<string>): seq<string> {
    seq(|related|, i requires 0 <= i < |related| => EdgeId(center, PersonNode(related[i]), "cooccurrence"))
  }

  ghost function RelatedNodes(related: seq<string>): seq<string> {
    seq(|related|, i requires 0 <= i < |related| => PersonNode(related[i]))
  }

  lemma RelatedEdgesDiffer(center: string, shown: seq<Shown>, related: seq<string>)
    requires RootsDiffer(shown) && Distinct(related)
    ensures Distinct(EventEdges(center, shown) + RelatedEdges(center, related))
  {
    var events, others := EventEdges(center, shown), RelatedEdges(center, related);
    EventEdgesDiffer(center, shown);
    forall i, j | 0 <= i < j < |others|
      ensures others[i] != others[j]
    {
      if others[i] == others[j] {
        OutgoingEdgesDiffer(center, PersonNode(related[i]), PersonNode(related[j]), "cooccurrence");
        DropHead("person:", related[i], related[j]);
      }
    }
    forall i, j | 0 <= i < |events| && 0 <= j < |others|
      ensures events[i] != others[j]
    {
      assert events[i][|center| + 1] == 'e' && others[j][|center| + 1] == 'p';
    }
  }

  /** People of the same publications: a count, on an edge of its own kind. */
  method DrawRelated(graph: Graph, center: string, ghost shown: seq<Shown>, related: seq<string>)
    requires graph.Closed() && center in graph.nodes.items
    requires RootsDiffer(shown) && Distinct(related) && graph.edges.keys == EventEdges(center, shown)
    modifies graph`nodes, graph`edges
    ensures graph.Closed() && center in graph.nodes.items
    ensures graph.edges.keys == EventEdges(center, shown) + RelatedEdges(center, related)
    ensures graph.nodes.items.Keys == old(graph.nodes.items.Keys) + Members(RelatedNodes(related))
  {
    ghost var plan := Plan(graph.edges.keys, graph.nodes.items, RelatedEdges(center, related), RelatedNodes(related));
    RelatedEdgesDiffer(center, shown, related);
    NothingDrawn(graph, plan);
    for i := 0 to |related|
      invariant Drew(graph, plan, i)
    {
      PersonFits(related[i]);
      Attach(graph, center, PersonNode(related[i]), "person", "cooccurrence", plan, i);
    }
    AllDrawn(graph, plan);
  }

  lemma EventsAreReports(reports: map<Id, Report>, events: seq<seq<Id>>)
    requires IsClustering(reports, events)
    ensures OfReports(reports, events) && RootsAscend(events)
  {
    forall k | 0 <= k < |events|
      ensures events[k] != [] && forall id :: id in events[k] ==> id in reports
    {
      assert IsEvent(reports, events[k]);
      forall id | id in events[k]
        ensures id in reports
      {
        assert id in IdSet(events[k]);
      }
    }
  }
}

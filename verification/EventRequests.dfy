/** A request for an event, from the id asked for to the payload: `expand_event` as a whole. */
module EventRequests {
  import opened Wrappers
  import opened Dicts
  import opened Sorting
  import opened Reports
  import opened Clusters
  import opened Locality
  import opened NodeIds
  import opened GraphPayload
  import opened Mentions
  import opened EventNeighbours

  /** The articles of an event's reports, report by report. */
  function ArticlesOf(base: Base, event: seq<Id>): (articles: seq<Id>)
    requires forall id :: id in event ==> id in base.told
    ensures |articles| == |event|
    ensures forall i :: 0 <= i < |event| ==> event[i] in base.told && articles[i] == base.told[event[i]].article
  {
    if event == [] then []
    else
      var last := event[|event| - 1];
      ArticlesOf(base, event[..|event| - 1]) + [base.told[last].article]
  }

  /** Ids as a database gives them. */
  ghost predicate Numbered(base: Base) {
    forall id :: id in base.told ==> id >= 0 && base.told[id].article >= 0
  }

  /** `event` is the event of `id`, as a page that asks for `id` reads it. */
  ghost predicate IsEventOf(base: Base, id: Id, event: seq<Id>)
    requires base.Valid()
  {
    && id in event && StrictlyAscending(event) && IdSet(event) == EventAt(base, {id}, id)
    && forall x :: x in event ==> x in base.told
  }

  lemma MembersAreTold(base: Base, id: Id, event: seq<Id>)
    requires base.Valid() && id in event && IdSet(event) == EventAt(base, {id}, id)
    ensures forall x :: x in event ==> x in base.told
  {
    forall x | x in event
      ensures x in base.told
    {
      assert x in IdSet(event);
    }
  }

  /** The event is named by its first report, and no report of it has a lesser id. */
  lemma FirstIsLeast(base: Base, id: Id, event: seq<Id>, x: Id)
    requires base.Valid() && IsEventOf(base, id, event) && x in EventAt(base, {id}, id)
    ensures event[0] <= x
  {
    assert x in IdSet(event);
  }

  /** The payload of an event, by its name, the articles of its reports and their mentions. */
  ghost predicate Shows(graph: Graph, name: Id, articles: seq<Id>, ms: seq<Mention>)
    reads graph
  {
    var told := Firsts(articles);
    && graph.Closed() && name >= 0 && Articles(told)
    && graph.edges.keys == EdgesOf(EventNode(name), EventNeighbours.Drawn(told, ms))
    && graph.nodes.items.Keys == {EventNode(name)} + EndsOf(EventNeighbours.Drawn(told, ms))
    && DrawsAll(EventNeighbours.Drawn(told, ms), graph.more, told, ms) && ArticlesAsNamed(graph.nodes.items, ms)
  }

  /**
   Asked for an id: nothing when its report is not read; else the payload of the event that holds
   it, named by its least report, with the publications of its reports and what their mentions name.
   `answer`: the rows of who the reports name; `mentionsOf`: the mentions of an event's reports.
   */
  method OpenEventPayload(base: Base, id: Id, answer: seq<Row>, mentionsOf: seq<Id> -> seq<Mention>)
    returns (graph: Option<Graph>, event: seq<Id>)
    requires base.Valid() && Numbered(base) && RowSet(answer) == AllRows(base, Local(base, {id}))
    requires forall ids :: PeopleAreNamed(mentionsOf(ids))
    ensures graph.None? <==> id !in Local(base, {id})
    ensures graph.Some? ==>
              && IsEventOf(base, id, event) && fresh(graph.value)
              && Shows(graph.value, event[0], ArticlesOf(base, event), mentionsOf(event))
  {
    var found := Locality.OpenEvent(base, id, answer);
    if found.None? { return None, []; }
    event := found.value;
    MembersAreTold(base, id, event);
    assert event[0] in event;
    var articles := ArticlesOf(base, event);
    var drawn, told := ExpandEvent(event[0], articles, mentionsOf(event));
    graph := Some(drawn);
  }
}

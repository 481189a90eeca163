/**
 `_report_rows`: which reports a page reads for the seeds it starts from, and why reading
 only these gives each seed the event the whole base would give it.
 */
module Locality {
  import opened Wrappers
  import opened Dicts
  import opened Sorting
  import opened Reports
  import opened Clusters
  import opened EventLaws

  /** An event as one publication tells it. `current`: read by its article's latest successful extraction run. */
  datatype Told = Told(kind: Kind, ownDay: Option<Day>, article: Id, current: bool)

  datatype Person = Person(group: Option<Group>, role: Role, binds: bool)

  /** What a report that names nobody joins to: nulls, with `binds` defaulted to true. */
  const NOBODY := Person(None, "", true)

  /** `published`: the stored articles with their day, if dated; `cards`: those joined to a source. */
  datatype Base = Base(
    told: map<Id, Told>, published: map<Id, Option<Day>>, cards: set<Id>, people: map<Id, set<Person>>)
  {
    ghost predicate Valid() {
      && people.Keys == told.Keys
      && cards <= published.Keys
      && forall id :: id in told ==> told[id].article in published
    }

    /** `fact.event_day or days[fact.article_id]` */
    function DayOf(id: Id): Option<Day>
      requires Valid() && id in told
    {
      if told[id].ownDay.Some? then told[id].ownDay else published[told[id].article]
    }
  }

  type Place = (Kind, Day)

  function PlaceOf(base: Base, id: Id): Option<Place>
    requires base.Valid() && id in base.told
  {
    var day := base.DayOf(id);
    if day.Some? then Some((base.told[id].kind, day.value)) else None
  }

  /** The (type, day) of every seed that has a day. */
  function Places(base: Base, seeds: set<Id>): set<Place>
    requires base.Valid()
  {
    set id | id in seeds && id in base.told && PlaceOf(base, id).Some? :: PlaceOf(base, id).value
  }

  // The queries

  function EventsDated(base: Base, places: set<Place>): set<Id> {
    set id | id in base.told && base.told[id].current && base.told[id].ownDay.Some?
             && (base.told[id].kind, base.told[id].ownDay.value) in places
  }

  function PublishedOn(base: Base, days: set<Day>): set<Id> {
    set article | article in base.published && base.published[article].Some? && base.published[article].value in days
  }

  function EventsUndated(base: Base, articles: set<Id>, kinds: set<Kind>): set<Id> {
    set id | id in base.told && base.told[id].current && base.told[id].ownDay.None?
             && base.told[id].article in articles && base.told[id].kind in kinds
  }

  /** The ids `_report_rows` keeps. */
  function Local(base: Base, seeds: set<Id>): set<Id>
    requires base.Valid()
  {
    var places := Places(base, seeds);
    var publishedThen := PublishedOn(base, set place | place in places :: place.1);
    var found := (set id | id in seeds && id in base.told)
                 + EventsDated(base, places)
                 + EventsUndated(base, publishedThen, set place | place in places :: place.0);
    set id | id in found && base.told[id].article in base.cards
             && (id in seeds || (PlaceOf(base, id).Some? && PlaceOf(base, id).value in places))
  }

  /** The reports of the whole base, and the seeds even of an older run. */
  function Whole(base: Base, seeds: set<Id>): set<Id> {
    set id | id in base.told && base.told[id].article in base.cards && (id in seeds || base.told[id].current)
  }

  /** The three queries miss no current report placed where a seed is, and add none placed elsewhere. */
  lemma LocalIsComplete(base: Base, seeds: set<Id>, id: Id)
    requires base.Valid()
    ensures id in Local(base, seeds) <==>
            && id in Whole(base, seeds)
            && (id in seeds || (PlaceOf(base, id).Some? && PlaceOf(base, id).value in Places(base, seeds)))
  {
    var places := Places(base, seeds);
    if id in base.told && id !in seeds && base.told[id].current && PlaceOf(base, id).Some?
       && PlaceOf(base, id).value in places {
      var place := PlaceOf(base, id).value;
      if base.told[id].ownDay.None? {
        assert place.1 in set p | p in places :: p.1;
        assert place.0 in set p | p in places :: p.0;
      }
    }
  }

  // From the base to reports

  function FactOf(base: Base, id: Id): Fact
    requires base.Valid() && id in base.told
  {
    Fact(base.told[id].kind, base.DayOf(id), base.told[id].ownDay.Some?, base.told[id].article)
  }

  /** The rows `event_people` joins for a report: one each for whom it names, or one for nobody. */
  function RowsOf(base: Base, id: Id): set<Row>
    requires base.Valid() && id in base.told
  {
    var people := if base.people[id] == {} then {NOBODY} else base.people[id];
    set person | person in people :: Row(id, FactOf(base, id), person.group, person.role, person.binds)
  }

  ghost function AllRows(base: Base, ids: set<Id>): set<Row>
    requires base.Valid() && ids <= base.told.Keys
  {
    set id, row | id in ids && row in RowsOf(base, id) :: row
  }

  lemma {:induction false} SomeReportGathers(rows: set<Row>, id: Id) returns (report: Report)
    requires rows != {} && OneFactEach(rows)
    requires forall row :: row in rows ==> row.id == id
    ensures Gathers(rows, id, report)
    decreases rows
  {
    var row :| row in rows;
    var rest := rows - {row};
    assert rows == rest + {row};
    if rest == {} {
      report := Absorb(Report(row.fact, map[], {}), row);
      StartGathers({}, row);
    } else {
      var before := SomeReportGathers(rest, id);
      report := Absorb(before, row);
      AbsorbGathers(rest, before, row);
    }
  }

  lemma RowsAreOwn(base: Base, id: Id)
    requires base.Valid() && id in base.told
    ensures RowsOf(base, id) != {} && OneFactEach(RowsOf(base, id))
    ensures forall row :: row in RowsOf(base, id) ==> row.id == id && row.fact == FactOf(base, id)
  {
    var person := if base.people[id] == {} then NOBODY else var p :| p in base.people[id]; p;
    assert Row(id, FactOf(base, id), person.group, person.role, person.binds) in RowsOf(base, id);
  }

  /** The report of one id: what its own rows say, whatever else is read beside it. */
  ghost function ReportOf(base: Base, id: Id): (report: Report)
    requires base.Valid() && id in base.told
    ensures Gathers(RowsOf(base, id), id, report) && report.fact == FactOf(base, id)
  {
    RowsAreOwn(base, id);
    assert exists report :: Gathers(RowsOf(base, id), id, report) by {
      var report := SomeReportGathers(RowsOf(base, id), id);
    }
    var report :| Gathers(RowsOf(base, id), id, report);
    report
  }

  ghost function ReportsOf(base: Base, ids: set<Id>): map<Id, Report>
    requires base.Valid() && ids <= base.told.Keys
  {
    map id | id in ids :: ReportOf(base, id)
  }

  /** The event of `id`, as a page that starts from `seeds` reads it. */
  ghost function EventAt(base: Base, seeds: set<Id>, id: Id): set<Id>
    requires base.Valid()
  {
    Component(ReportsOf(base, Local(base, seeds)), id)
  }

  lemma GathersOwnRows(base: Base, ids: set<Id>, id: Id, report: Report)
    requires base.Valid() && ids <= base.told.Keys && id in ids
    requires Gathers(AllRows(base, ids), id, report)
    ensures Gathers(RowsOf(base, id), id, report)
  {
    OtherRowsDoNotMatter(AllRows(base, ids), RowsOf(base, id), id, report);
  }

  lemma OtherRowsDoNotMatter(all: set<Row>, own: set<Row>, id: Id, report: Report)
    requires Gathers(all, id, report)
    requires forall row :: row in all && row.id == id ==> row in own
    requires forall row :: row in own ==> row in all
    ensures Gathers(own, id, report)
  {
    forall g | g in report.people
      ensures exists row :: row in own && Reports.Names(row, id, g) && row.role == report.people[g]
    {
      var row :| row in all && Reports.Names(row, id, g) && row.role == report.people[g];
      assert row in own;
    }
    forall g | g in report.binders
      ensures exists row :: row in own && Reports.Names(row, id, g) && row.binds
    {
      var row :| row in all && Reports.Names(row, id, g) && row.binds;
      assert row in own;
    }
    var first :| first in all && first.id == id && first.fact == report.fact;
    assert first in own;
  }

  /**
   Reading and clustering, as a page does. `answer` is what `event_people` gave: every row of
   the ids asked for, in any order. The sort by event id only makes the dict ascending.
   */
  method ReadEvents(base: Base, seeds: set<Id>, answer: seq<Row>) returns (reports: Dict<Id, Report>, events: seq<seq<Id>>)
    requires base.Valid()
    requires RowSet(answer) == AllRows(base, Local(base, seeds))
    ensures reports.items == ReportsOf(base, Local(base, seeds))
    ensures reports.Valid() && IsClustering(reports.items, events)
  {
    var rows := Sort(answer, (a: Row, b: Row) => a.id <= b.id);
    assert RowSet(rows) == RowSet(answer) by {
      forall row
        ensures row in rows <==> row in answer
      {
        assert row in multiset(rows) <==> row in multiset(answer);
      }
    }
    reports := FoldRows(rows);
    RowsReadReports(base, Local(base, seeds), reports.items);
    events := Cluster(reports);
  }

  /** What `expand_event` opens an id as: nothing for an id that is not read, else the event that holds it. */
  method OpenEvent(base: Base, id: Id, answer: seq<Row>) returns (event: Option<seq<Id>>)
    requires base.Valid()
    requires RowSet(answer) == AllRows(base, Local(base, {id}))
    ensures event.None? <==> id !in Local(base, {id})
    ensures event.Some? ==> id in event.value && StrictlyAscending(event.value)
    ensures event.Some? ==> IdSet(event.value) == EventAt(base, {id}, id)
  {
    var reports, events := ReadEvents(base, {id}, answer);
    if id !in reports.items { return None; }
    var found := EventOf(reports.items, events, id);
    event := Some(found);
  }

  lemma RowsReadReports(base: Base, ids: set<Id>, reports: map<Id, Report>)
    requires base.Valid() && ids <= base.told.Keys
    requires GathersAll(AllRows(base, ids), reports)
    ensures reports == ReportsOf(base, ids)
  {
    forall id
      ensures id in ids <==> id in reports
    {
      if id in ids {
        RowsAreOwn(base, id);
        var row :| row in RowsOf(base, id);
        assert row in AllRows(base, ids);
      }
      if id in reports { assert Gathers(AllRows(base, ids), id, reports[id]); }
    }
    forall id | id in ids
      ensures reports[id] == ReportOf(base, id)
    {
      GathersOwnRows(base, ids, id, reports[id]);
      RowsAreOwn(base, id);
      GathersIsFunctional(RowsOf(base, id), id, reports[id], ReportOf(base, id));
    }
  }

  // Locality

  /** Bound reports share a place, so a chain that starts at a seed stays among the reports read for the seeds. */
  lemma {:induction false} ChainStaysLocal(base: Base, seeds: set<Id>, path: seq<Id>)
    requires base.Valid()
    requires path != [] && Chain(ReportsOf(base, Whole(base, seeds)), path) && path[0] in Local(base, seeds)
    requires |path| > 1 ==> PlaceOf(base, path[0]).Some? && PlaceOf(base, path[0]).value in Places(base, seeds)
    ensures Chain(ReportsOf(base, Local(base, seeds)), path)
  {
    var local, whole := ReportsOf(base, Local(base, seeds)), ReportsOf(base, Whole(base, seeds));
    if |path| > 1 {
      var a, b, rest := path[0], path[1], path[1..];
      assert Bound(whole, a, b);
      LocalIsComplete(base, seeds, b);
      assert PlaceOf(base, a) == PlaceOf(base, b);
      ChainStaysLocal(base, seeds, rest);
      forall i | 0 <= i < |path| - 1
        ensures Bound(local, path[i], path[i + 1])
      {
        if i > 0 { assert Bound(local, rest[i - 1], rest[i]); }
      }
      forall i | 0 <= i < |path|
        ensures path[i] in local
      {
        if i > 0 { assert rest[i - 1] in local; }
      }
    }
  }

  lemma LocalIsPart(base: Base, seeds: set<Id>)
    requires base.Valid()
    ensures Grows(ReportsOf(base, Local(base, seeds)), ReportsOf(base, Whole(base, seeds)))
  {
    forall id | id in Local(base, seeds)
      ensures id in Whole(base, seeds)
    {
      LocalIsComplete(base, seeds, id);
    }
  }

  /** A seed's event read locally is its event in the whole base. */
  lemma SeedEventIsWhole(base: Base, seeds: set<Id>, seed: Id)
    requires base.Valid() && seed in seeds && seed in Local(base, seeds)
    ensures EventAt(base, seeds, seed) == Component(ReportsOf(base, Whole(base, seeds)), seed)
  {
    var local, whole := ReportsOf(base, Local(base, seeds)), ReportsOf(base, Whole(base, seeds));
    LocalIsPart(base, seeds);
    forall x
      ensures x in Component(local, seed) <==> x in Component(whole, seed)
    {
      if x in Component(local, seed) { ConnectedGrows(local, whole, seed, x); }
      if x in Component(whole, seed) {
        var path :| Joins(whole, path, seed, x);
        if |path| > 1 { assert Bound(whole, path[0], path[1]); }
        ChainStaysLocal(base, seeds, path);
        assert Joins(local, path, seed, x);
      }
    }
  }

  lemma SameListing(reports: map<Id, Report>, more: map<Id, Report>, e: seq<Id>, f: seq<Id>, a: Id)
    requires IsEvent(reports, e) && IsEvent(more, f) && a in e && a in f
    requires Component(reports, a) == Component(more, a)
    ensures e == f
  {
    EventHoldsComponent(reports, e, a);
    EventHoldsComponent(more, f, a);
    forall x
      ensures x in e <==> x in f
    {
      assert x in IdSet(e) <==> x in IdSet(f);
    }
    AscendingListingIsUnique(e, f);
  }

  /**
   Locality: clustering only what is read for the seeds gives exactly the seeds' events of the
   whole base, report for report and under the same name.
   */
  lemma SeedsGetTheirWholeEvents(
    base: Base, seeds: set<Id>, events: seq<seq<Id>>, all: seq<seq<Id>>, event: seq<Id>, seed: Id)
    requires base.Valid() && seed in seeds && seed in event
    requires IsClustering(ReportsOf(base, Local(base, seeds)), events)
    requires IsClustering(ReportsOf(base, Whole(base, seeds)), all)
    ensures event in events <==> event in all
  {
    var local, whole := ReportsOf(base, Local(base, seeds)), ReportsOf(base, Whole(base, seeds));
    LocalIsPart(base, seeds);
    if event in events {
      EventHoldsComponent(local, event, seed);
      SeedEventIsWhole(base, seeds, seed);
      EventsPartition(whole, all, seed);
      var k :| 0 <= k < |all| && seed in all[k];
      SameListing(local, whole, event, all[k], seed);
    }
    if event in all {
      EventHoldsComponent(whole, event, seed);
      LocalIsComplete(base, seeds, seed);
      SeedEventIsWhole(base, seeds, seed);
      EventsPartition(local, events, seed);
      var k :| 0 <= k < |events| && seed in events[k];
      SameListing(whole, local, event, events[k], seed);
    }
  }

  // One event, from whichever of its reports it is reached

  /** No report the base would put beside `id` is bound to it. */
  ghost predicate Alone(base: Base, id: Id)
    requires base.Valid()
  {
    forall x :: x in Whole(base, {id}) && x != id ==> !Bound(ReportsOf(base, Whole(base, {id})), id, x)
  }

  lemma AloneIsItsEvent(base: Base, id: Id)
    requires base.Valid() && id in Local(base, {id})
    ensures Alone(base, id) <==> EventAt(base, {id}, id) == {id}
  {
    var whole := ReportsOf(base, Whole(base, {id}));
    LocalIsComplete(base, {id}, id);
    SeedEventIsWhole(base, {id}, id);
    ConnectedReflexive(whole, id);
    if Alone(base, id) {
      forall x | x in Component(whole, id)
        ensures x == id
      {
        var path :| Joins(whole, path, id, x);
        NoWayOut(whole, path);
      }
    } else {
      var x :| x in Whole(base, {id}) && x != id && Bound(whole, id, x);
      BoundConnects(whole, id, x);
      assert x in Component(whole, id);
    }
  }

  lemma {:induction false} NoWayOut(reports: map<Id, Report>, path: seq<Id>)
    requires path != [] && Chain(reports, path)
    requires forall x :: x in reports && x != path[0] ==> !Bound(reports, path[0], x)
    ensures path[|path| - 1] == path[0]
  {
    if |path| > 1 {
      assert Bound(reports, path[0], path[1]);
      NoWayOut(reports, path[1..]);
    }
  }

  /**
   Every report of the event reached from `id` reaches that very event, exactly when `id` was
   read by its article's latest run or is an event of its own. A report of an older run is read
   only for being asked for: the reports it is bound to do not lead back to it.
   */
  lemma ReachedFromAnyReport(base: Base, id: Id)
    requires base.Valid() && id in Local(base, {id})
    ensures (forall x :: x in EventAt(base, {id}, id) ==> EventAt(base, {x}, x) == EventAt(base, {id}, id))
            <==> base.told[id].current || Alone(base, id)
  {
    var event := EventAt(base, {id}, id);
    LocalIsComplete(base, {id}, id);
    AloneIsItsEvent(base, id);
    if base.told[id].current {
      forall x | x in event
        ensures EventAt(base, {x}, x) == event
      {
        CurrentReportsAgree(base, id, x);
      }
    } else if !Alone(base, id) {
      ConnectedReflexive(ReportsOf(base, Local(base, {id})), id);
      assert id in event;
      var x :| x in event && x != id;
      LocalIsComplete(base, {x}, id);
      assert id !in EventAt(base, {x}, x);
    }
  }

  lemma CurrentReportsAgree(base: Base, id: Id, x: Id)
    requires base.Valid() && id in Local(base, {id}) && base.told[id].current
    requires x in EventAt(base, {id}, id)
    ensures EventAt(base, {x}, x) == EventAt(base, {id}, id)
  {
    LocalIsComplete(base, {id}, id);
    LocalIsComplete(base, {id}, x);
    assert x in Whole(base, {id}) && base.told[x].current;
    assert Whole(base, {x}) == Whole(base, {id});
    LocalIsComplete(base, {x}, x);
    SeedEventIsWhole(base, {id}, id);
    SeedEventIsWhole(base, {x}, x);
    ComponentsAgree(ReportsOf(base, Whole(base, {id})), id, x);
  }

  // The events of a person

  /** `events_naming`: every event that names the person, of whatever run. */
  function EventsNaming(base: Base, group: Group): set<Id> {
    set id | id in base.told && id in base.people && exists person :: person in base.people[id] && person.group == Some(group)
  }

  lemma NamedIffInPeople(base: Base, id: Id, group: Group)
    requires base.Valid() && id in base.told
    ensures id in EventsNaming(base, group) <==> group in ReportOf(base, id).people
  {
    var rows, report := RowsOf(base, id), ReportOf(base, id);
    if id in EventsNaming(base, group) {
      var person :| person in base.people[id] && person.group == Some(group);
      assert Row(id, FactOf(base, id), person.group, person.role, person.binds) in rows;
    }
    if group in report.people {
      var row :| row in rows && Reports.Names(row, id, group) && row.role == report.people[group];
      var person :| person in (if base.people[id] == {} then {NOBODY} else base.people[id])
                    && row == Row(id, FactOf(base, id), person.group, person.role, person.binds);
    }
  }

  lemma {:induction false} RoleIffNamed(base: Base, ids: set<Id>, event: seq<Id>, group: Group)
    requires base.Valid() && ids <= base.told.Keys
    requires forall id :: id in event ==> id in ids
    ensures RoleOf(ReportsOf(base, ids), event, group).Some? <==>
            exists id :: id in event && id in EventsNaming(base, group)
  {
    if event != [] {
      var id := event[0];
      assert id in event;
      RoleIffNamed(base, ids, event[1..], group);
      NamedIffInPeople(base, id, group);
      assert event == [id] + event[1..];
    }
  }

  /** Drawn beside the person: an event in which some report gives them a role. */
  ghost predicate Drawn(base: Base, ids: set<Id>, events: seq<seq<Id>>, event: seq<Id>, group: Group, role: Role)
    requires base.Valid() && ids <= base.told.Keys
  {
    && event in events && (forall id :: id in event ==> id in ids)
    && RoleOf(ReportsOf(base, ids), event, group) == Some(role)
  }

  lemma {:induction false} RoleIsOfMembers(base: Base, ids: set<Id>, others: set<Id>, event: seq<Id>, group: Group)
    requires base.Valid() && ids <= base.told.Keys && others <= base.told.Keys
    requires forall id :: id in event ==> id in ids && id in others
    ensures RoleOf(ReportsOf(base, ids), event, group) == RoleOf(ReportsOf(base, others), event, group)
  {
    if event != [] {
      assert event[0] in event;
      RoleIsOfMembers(base, ids, others, event[1..], group);
    }
  }

  lemma MembersAreReports(reports: map<Id, Report>, events: seq<seq<Id>>, event: seq<Id>)
    requires IsClustering(reports, events) && event in events
    ensures forall id :: id in event ==> id in reports
  {
    forall id | id in event
      ensures id in reports
    {
      EventHoldsComponent(reports, event, id);
    }
  }

  /** What is drawn for a person is exactly the events of the whole base that name them, each with its role there. */
  lemma PersonSeesWholeEvents(
    base: Base, group: Group, events: seq<seq<Id>>, all: seq<seq<Id>>, event: seq<Id>, role: Role)
    requires base.Valid()
    requires IsClustering(ReportsOf(base, Local(base, EventsNaming(base, group))), events)
    requires IsClustering(ReportsOf(base, Whole(base, EventsNaming(base, group))), all)
    ensures Drawn(base, Local(base, EventsNaming(base, group)), events, event, group, role)
            <==> Drawn(base, Whole(base, EventsNaming(base, group)), all, event, group, role)
  {
    var seeds := EventsNaming(base, group);
    var local, whole := Local(base, seeds), Whole(base, seeds);
    if Drawn(base, local, events, event, group, role) {
      RoleIffNamed(base, local, event, group);
      var id :| id in event && id in seeds;
      SeedsGetTheirWholeEvents(base, seeds, events, all, event, id);
      MembersAreReports(ReportsOf(base, whole), all, event);
      RoleIsOfMembers(base, local, whole, event, group);
    }
    if Drawn(base, whole, all, event, group, role) {
      RoleIffNamed(base, whole, event, group);
      var id :| id in event && id in seeds;
      SeedsGetTheirWholeEvents(base, seeds, events, all, event, id);
      MembersAreReports(ReportsOf(base, local), events, event);
      RoleIsOfMembers(base, local, whole, event, group);
    }
  }
}

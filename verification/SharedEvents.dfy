/**
 One event reached from different starts: two people it names, a person and its own node, or any
 reports at all. Every start adds the older-run reports it asks for, and no others, so two starts
 agree exactly when these do not tell them apart.
 */
module SharedEvents {
  import opened Wrappers
  import opened Sorting
  import opened Reports
  import opened Clusters
  import opened EventLaws
  import opened Locality

  /** Two reports of the base that are bound, wherever both are read. */
  ghost predicate Binds(base: Base, x: Id, y: Id)
    requires base.Valid()
  {
    x in base.told && y in base.told && Bound(ReportsOf(base, {x, y}), x, y)
  }

  lemma BoundIffBinds(base: Base, ids: set<Id>, x: Id, y: Id)
    requires base.Valid() && ids <= base.told.Keys && x in ids && y in ids
    ensures Bound(ReportsOf(base, ids), x, y) <==> Binds(base, x, y)
  {
  }

  /** The event of a report among those read. */
  ghost function Among(base: Base, ids: set<Id>, id: Id): set<Id>
    requires base.Valid() && ids <= base.told.Keys
  {
    Component(ReportsOf(base, ids), id)
  }

  lemma AmongGrows(base: Base, ids: set<Id>, id: Id, y: Id, x: Id)
    requires base.Valid() && ids <= base.told.Keys && y in Among(base, ids, id) && x in ids && Binds(base, y, x)
    ensures x in Among(base, ids, id)
  {
    BoundIffBinds(base, ids, y, x);
    BoundConnects(ReportsOf(base, ids), y, x);
    ConnectedTransitive(ReportsOf(base, ids), id, y, x);
  }

  lemma {:induction false} ChainStaysAmong(base: Base, ids: set<Id>, others: set<Id>, id: Id, path: seq<Id>)
    requires base.Valid() && ids <= base.told.Keys && others <= base.told.Keys
    requires path != [] && Chain(ReportsOf(base, others), path) && path[0] in Among(base, ids, id)
    requires forall x, y :: x in others && y in Among(base, ids, id) && Binds(base, y, x) ==> x in ids
    ensures path[|path| - 1] in Among(base, ids, id)
  {
    if |path| > 1 {
      var rest := path[1..];
      assert Bound(ReportsOf(base, others), path[0], path[1]);
      BoundIffBinds(base, others, path[0], path[1]);
      AmongGrows(base, ids, id, path[0], path[1]);
      forall i | 0 <= i < |rest| - 1
        ensures Bound(ReportsOf(base, others), rest[i], rest[i + 1])
      {
        assert Bound(ReportsOf(base, others), path[i + 1], path[i + 1 + 1]);
      }
      ChainStaysAmong(base, ids, others, id, rest);
    }
  }

  /** An event read among some reports holds the event read among others, when these bind nothing new to it. */
  lemma HoldsTheOther(base: Base, ids: set<Id>, others: set<Id>, id: Id)
    requires base.Valid() && ids <= base.told.Keys && others <= base.told.Keys && id in ids
    requires forall x, y :: x in others && y in Among(base, ids, id) && Binds(base, y, x) ==> x in ids
    ensures Among(base, others, id) <= Among(base, ids, id)
  {
    ConnectedReflexive(ReportsOf(base, ids), id);
    forall z | z in Among(base, others, id)
      ensures z in Among(base, ids, id)
    {
      var path :| Joins(ReportsOf(base, others), path, id, z);
      ChainStaysAmong(base, ids, others, id, path);
    }
  }

  lemma BindsSymmetric(base: Base, x: Id, y: Id)
    requires base.Valid() && Binds(base, x, y)
    ensures Binds(base, y, x)
  {
    assert {x, y} == {y, x};
  }

  /** A report of an older run whose article is stored with its source. */
  ghost predicate Older(base: Base, id: Id) {
    id in base.told && !base.told[id].current && base.told[id].article in base.cards
  }

  /** Whatever of an event's older-run reports, or of those bound to it, one start reads, the other reads. */
  ghost predicate ReadAlike(base: Base, event: set<Id>, seeds: set<Id>, others: set<Id>)
    requires base.Valid()
  {
    && (forall y :: y in event && Older(base, y) ==> y in others)
    && (forall x, y :: x in others && Older(base, x) && y in event && Binds(base, y, x) ==> x in seeds)
  }

  lemma AmongAgree(base: Base, seeds: set<Id>, others: set<Id>, id: Id)
    requires base.Valid() && id in Whole(base, seeds) && id in Whole(base, others)
    ensures Among(base, Whole(base, others), id) == Among(base, Whole(base, seeds), id)
            <==> ReadAlike(base, Among(base, Whole(base, seeds), id), seeds, others)
  {
    var mine, theirs := Whole(base, seeds), Whole(base, others);
    var event := Among(base, mine, id);
    if ReadAlike(base, event, seeds, others) {
      HoldsTheOther(base, mine, theirs, id);
      forall x, y | x in mine && y in Among(base, theirs, id) && Binds(base, y, x)
        ensures x in theirs
      {
        AmongGrows(base, mine, id, y, x);
      }
      HoldsTheOther(base, theirs, mine, id);
    }
    if Among(base, theirs, id) == event {
      forall x, y | x in others && Older(base, x) && y in event && Binds(base, y, x)
        ensures x in seeds
      {
        AmongGrows(base, theirs, id, y, x);
      }
    }
  }

  /**
   Two starts that each ask for a report of one event are shown the same event exactly when they
   read alike what older runs say of it.
   */
  lemma SharedEventIff(base: Base, seeds: set<Id>, seed: Id, others: set<Id>, other: Id)
    requires base.Valid() && seed in seeds && seed in Local(base, seeds) && other in others
    requires other in EventAt(base, seeds, seed)
    ensures EventAt(base, others, other) == EventAt(base, seeds, seed)
            <==> ReadAlike(base, EventAt(base, seeds, seed), seeds, others)
  {
    var whole := ReportsOf(base, Whole(base, seeds));
    SeedEventIsWhole(base, seeds, seed);
    LocalIsComplete(base, seeds, seed);
    assert other in Whole(base, seeds);
    LocalIsComplete(base, others, other);
    SeedEventIsWhole(base, others, other);
    ComponentsAgree(whole, seed, other);
    AmongAgree(base, seeds, others, other);
  }

  lemma EventIsRead(base: Base, seeds: set<Id>, seed: Id, y: Id)
    requires base.Valid() && seed in seeds && seed in Local(base, seeds) && y in EventAt(base, seeds, seed)
    ensures y in base.told && base.told[y].article in base.cards && (y in seeds || base.told[y].current)
  {
    SeedEventIsWhole(base, seeds, seed);
    assert y in Whole(base, seeds);
  }

  lemma ReadAlikeByOne(base: Base, event: set<Id>, seeds: set<Id>, id: Id)
    requires base.Valid() && id in event
    requires forall y :: y in event ==> y in base.told && base.told[y].article in base.cards && (y in seeds || base.told[y].current)
    ensures ReadAlike(base, event, seeds, {id}) <==> forall y :: y in event && y != id ==> base.told[y].current
  {
  }

  /** A report opens the event another start drew it in exactly when every other report of that event is of a latest run. */
  lemma OpensAsDrawnIff(base: Base, seeds: set<Id>, seed: Id, id: Id)
    requires base.Valid() && seed in seeds && seed in Local(base, seeds) && id in EventAt(base, seeds, seed)
    ensures EventAt(base, seeds, seed) <= base.told.Keys
    ensures EventAt(base, {id}, id) == EventAt(base, seeds, seed)
            <==> forall y :: y in EventAt(base, seeds, seed) && y != id ==> base.told[y].current
  {
    forall y | y in EventAt(base, seeds, seed)
      ensures y in base.told && base.told[y].article in base.cards && (y in seeds || base.told[y].current)
    {
      EventIsRead(base, seeds, seed, y);
    }
    SharedEventIff(base, seeds, seed, {id}, id);
    ReadAlikeByOne(base, EventAt(base, seeds, seed), seeds, id);
  }

  // What the pages draw

  lemma EventsOfOneSet(e: seq<Id>, f: seq<Id>)
    requires StrictlyAscending(e) && StrictlyAscending(f) && IdSet(e) == IdSet(f)
    ensures e == f
  {
    forall x
      ensures x in e <==> x in f
    {
      assert x in IdSet(e) <==> x in IdSet(f);
    }
    AscendingListingIsUnique(e, f);
  }

  /** An event is among those read from some seeds exactly when it is the event of a seed it holds. */
  lemma ListedIffOfSeed(base: Base, seeds: set<Id>, events: seq<seq<Id>>, event: seq<Id>, seed: Id)
    requires base.Valid() && seed in event && seed in Local(base, seeds) && StrictlyAscending(event)
    requires IsClustering(ReportsOf(base, Local(base, seeds)), events)
    ensures event in events <==> IdSet(event) == EventAt(base, seeds, seed)
  {
    var local := ReportsOf(base, Local(base, seeds));
    if event in events { EventHoldsComponent(local, event, seed); }
    if IdSet(event) == EventAt(base, seeds, seed) {
      EventsPartition(local, events, seed);
      var k :| 0 <= k < |events| && seed in events[k];
      EventHoldsComponent(local, events[k], seed);
      EventsOfOneSet(event, events[k]);
    }
  }

  lemma DrawnHoldsSeed(base: Base, group: Group, events: seq<seq<Id>>, event: seq<Id>, role: Role) returns (seed: Id)
    requires base.Valid()
    requires Drawn(base, Local(base, EventsNaming(base, group)), events, event, group, role)
    ensures seed in event && seed in EventsNaming(base, group) && seed in Local(base, EventsNaming(base, group))
  {
    RoleIffNamed(base, Local(base, EventsNaming(base, group)), event, group);
    seed :| seed in event && seed in EventsNaming(base, group);
  }

  /**
   The node of an event drawn for a person opens as that very event exactly when every report of
   it but the one it is named by is of a latest run.
   */
  lemma DrawnOpensAsItselfIff(base: Base, group: Group, events: seq<seq<Id>>, event: seq<Id>, role: Role)
    requires base.Valid()
    requires IsClustering(ReportsOf(base, Local(base, EventsNaming(base, group))), events)
    requires Drawn(base, Local(base, EventsNaming(base, group)), events, event, group, role)
    ensures event != [] && event[0] in base.told && IdSet(event) <= base.told.Keys
    ensures EventAt(base, {event[0]}, event[0]) == IdSet(event)
            <==> forall y :: y in event && y != event[0] ==> base.told[y].current
  {
    var seeds := EventsNaming(base, group);
    var seed := DrawnHoldsSeed(base, group, events, event, role);
    EventHoldsComponent(ReportsOf(base, Local(base, seeds)), event, seed);
    assert event[0] in IdSet(event);
    OpensAsDrawnIff(base, seeds, seed, event[0]);
  }

  /**
   An event drawn for one person is drawn, the same reports under the same name, for another whom
   it names exactly when the two read alike what older runs say of it: each of its older-run
   reports names the other too, and each older-run report bound to it that names the other names
   the one.
   */
  lemma TwoPeopleShareEventIff(
    base: Base, one: Group, other: Group, mine: seq<seq<Id>>, theirs: seq<seq<Id>>, event: seq<Id>, role: Role)
    requires base.Valid()
    requires IsClustering(ReportsOf(base, Local(base, EventsNaming(base, one))), mine)
    requires IsClustering(ReportsOf(base, Local(base, EventsNaming(base, other))), theirs)
    requires Drawn(base, Local(base, EventsNaming(base, one)), mine, event, one, role)
    requires exists id :: id in event && id in EventsNaming(base, other)
    ensures event in theirs <==> ReadAlike(base, IdSet(event), EventsNaming(base, one), EventsNaming(base, other))
  {
    var seeds, others := EventsNaming(base, one), EventsNaming(base, other);
    var seed := DrawnHoldsSeed(base, one, mine, event, role);
    var id :| id in event && id in others;
    EventHoldsComponent(ReportsOf(base, Local(base, seeds)), event, seed);
    assert id in IdSet(event);
    SharedEventIff(base, seeds, seed, others, id);
    LocalIsComplete(base, seeds, id);
    LocalIsComplete(base, others, id);
    ListedIffOfSeed(base, others, theirs, event, id);
  }

  ghost predicate NothingOlderBinds(base: Base, event: set<Id>)
    requires base.Valid()
  {
    forall x, y :: Older(base, x) && y in event ==> !Binds(base, y, x)
  }

  ghost predicate SameAt(base: Base, event: set<Id>, seeds: set<Id>, seed: Id)
    requires base.Valid()
  {
    seed in seeds && seed in event ==> EventAt(base, seeds, seed) == event
  }

  ghost predicate SameFromEverywhere(base: Base, event: set<Id>)
    requires base.Valid()
  {
    forall seeds: set<Id>, seed :: SameAt(base, event, seeds, seed)
  }

  lemma SameFrom(base: Base, id: Id, seeds: set<Id>, seed: Id)
    requires base.Valid() && id in Local(base, {id}) && base.told[id].current
    requires NothingOlderBinds(base, EventAt(base, {id}, id)) && seed in seeds && seed in EventAt(base, {id}, id)
    ensures EventAt(base, seeds, seed) == EventAt(base, {id}, id)
  {
    var event := EventAt(base, {id}, id);
    forall y | y in event
      ensures !Older(base, y)
    {
      EventIsRead(base, {id}, id, y);
    }
    SharedEventIff(base, {id}, id, seeds, seed);
  }

  lemma OtherFrom(base: Base, id: Id, x: Id, y: Id)
    requires base.Valid() && id in Local(base, {id}) && base.told[id].current
    requires Older(base, x) && y in EventAt(base, {id}, id) && Binds(base, y, x)
    ensures EventAt(base, {x, y}, y) != EventAt(base, {id}, id)
  {
    SharedEventIff(base, {id}, id, {x, y}, y);
    assert x in {x, y} && x !in {id};
  }

  lemma NothingOlderThenSame(base: Base, id: Id)
    requires base.Valid() && id in Local(base, {id}) && base.told[id].current
    requires NothingOlderBinds(base, EventAt(base, {id}, id))
    ensures SameFromEverywhere(base, EventAt(base, {id}, id))
  {
    var event := EventAt(base, {id}, id);
    forall seeds: set<Id>, seed
      ensures SameAt(base, event, seeds, seed)
    {
      if seed in seeds && seed in event { SameFrom(base, id, seeds, seed); }
    }
  }

  lemma SameThenNothingOlder(base: Base, id: Id, x: Id, y: Id)
    requires base.Valid() && id in Local(base, {id}) && base.told[id].current
    requires SameFromEverywhere(base, EventAt(base, {id}, id))
    requires Older(base, x) && y in EventAt(base, {id}, id)
    ensures !Binds(base, y, x)
  {
    assert SameAt(base, EventAt(base, {id}, id), {x, y}, y);
    if Binds(base, y, x) { OtherFrom(base, id, x, y); }
  }

  /**
   An event of latest runs is one and the same from every start that asks for a report of it,
   exactly when no older-run report is bound to it.
   */
  lemma OneEventFromEverywhereIff(base: Base, id: Id)
    requires base.Valid() && id in Local(base, {id}) && base.told[id].current
    ensures SameFromEverywhere(base, EventAt(base, {id}, id)) <==> NothingOlderBinds(base, EventAt(base, {id}, id))
  {
    if NothingOlderBinds(base, EventAt(base, {id}, id)) { NothingOlderThenSame(base, id); }
    if SameFromEverywhere(base, EventAt(base, {id}, id)) {
      forall x, y | Older(base, x) && y in EventAt(base, {id}, id)
        ensures !Binds(base, y, x)
      {
        SameThenNothingOlder(base, id, x, y);
      }
    }
  }

  // A base that shows it

  lemma BindersAre(base: Base, id: Id, group: Group)
    requires base.Valid() && id in base.told
    ensures group in ReportOf(base, id).binders
            <==> exists person :: person in base.people[id] && person.group == Some(group) && person.binds
  {
    var rows, report := RowsOf(base, id), ReportOf(base, id);
    if person :| person in base.people[id] && person.group == Some(group) && person.binds {
      assert Row(id, FactOf(base, id), person.group, person.role, person.binds) in rows;
    }
    if group in report.binders {
      var row :| row in rows && Reports.Names(row, id, group) && row.binds;
      var person :| person in (if base.people[id] == {} then {NOBODY} else base.people[id])
                    && row == Row(id, FactOf(base, id), person.group, person.role, person.binds);
    }
  }

  const SEVEN := Person(Some(7), "target", true)
  const EIGHT := Person(Some(8), "target", true)

  /** One day, one type: report 1, of an older run, names 7; report 5, of a latest run, names 7 and 8. */
  const TWO_REPORTS := Base(
    map[1 := Told("arrest", Some(0), 10, false), 5 := Told("arrest", Some(0), 11, true)],
    map[10 := None, 11 := None], {10, 11}, map[1 := {SEVEN}, 5 := {SEVEN, EIGHT}])

  lemma WhoIsNamed()
    ensures TWO_REPORTS.Valid()
    ensures EventsNaming(TWO_REPORTS, 7) == {1, 5} && EventsNaming(TWO_REPORTS, 8) == {5}
  {
    var base := TWO_REPORTS;
    assert SEVEN in base.people[1] && SEVEN in base.people[5] && EIGHT in base.people[5];
    assert EIGHT !in base.people[1];
  }

  lemma ReportsAreBound()
    ensures TWO_REPORTS.Valid() && Binds(TWO_REPORTS, 1, 5) && Binds(TWO_REPORTS, 5, 1)
  {
    var base := TWO_REPORTS;
    assert SEVEN in base.people[1] && SEVEN in base.people[5];
    BindersAre(base, 1, 7);
    BindersAre(base, 5, 7);
    BindsSymmetric(base, 1, 5);
  }

  /** The event of a report that was asked for is both, when both are read, else itself. */
  lemma BothWhenRead(seeds: set<Id>, seed: Id)
    requires seed in seeds && seed in {1, 5}
    ensures TWO_REPORTS.Valid()
    ensures EventAt(TWO_REPORTS, seeds, seed) == Whole(TWO_REPORTS, seeds)
  {
    var base, whole := TWO_REPORTS, Whole(TWO_REPORTS, seeds);
    ReportsAreBound();
    LocalIsComplete(base, seeds, seed);
    SeedEventIsWhole(base, seeds, seed);
    ConnectedReflexive(ReportsOf(base, whole), seed);
    forall other | other in whole
      ensures other in Among(base, whole, seed)
    {
      if other != seed { AmongGrows(base, whole, seed, seed, other); }
    }
  }

  lemma WhatIsRead(seeds: set<Id>)
    ensures Whole(TWO_REPORTS, seeds) == if 1 in seeds then {1, 5} else {5}
  {
  }

  /** Person 7 is shown event 1, of both reports; person 8 is shown event 5, of one. */
  lemma TwoPeopleTwoEvents()
    ensures TWO_REPORTS.Valid()
    ensures EventAt(TWO_REPORTS, EventsNaming(TWO_REPORTS, 7), 5) == {1, 5}
    ensures EventAt(TWO_REPORTS, EventsNaming(TWO_REPORTS, 8), 5) == {5}
  {
    WhoIsNamed();
    BothWhenRead({1, 5}, 5);
    WhatIsRead({1, 5});
    BothWhenRead({5}, 5);
    WhatIsRead({5});
  }

  /** The node of report 1 opens both reports; of these, report 5 opens only itself. */
  lemma OlderOpensMoreThanItsEvent()
    ensures TWO_REPORTS.Valid()
    ensures EventAt(TWO_REPORTS, {1}, 1) == {1, 5} && EventAt(TWO_REPORTS, {5}, 5) == {5}
  {
    BothWhenRead({1}, 1);
    WhatIsRead({1});
    BothWhenRead({5}, 5);
    WhatIsRead({5});
  }
}

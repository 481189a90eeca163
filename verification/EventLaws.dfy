/** What a clustering promises the reader of the page, whatever algorithm produced it. */
module EventLaws {
  import opened Sorting
  import opened Reports
  import opened Clusters

  ghost predicate Together(events: seq<seq<Id>>, a: Id, b: Id) {
    exists k :: 0 <= k < |events| && a in events[k] && b in events[k]
  }

  lemma MembersAreConnected(reports: map<Id, Report>, event: seq<Id>, a: Id, b: Id)
    requires IsEvent(reports, event) && a in event && b in event
    ensures a in reports && b in reports && Connected(reports, a, b)
  {
    assert a in IdSet(event) && b in IdSet(event);
    ConnectedSymmetric(reports, event[0], a);
    ConnectedTransitive(reports, a, event[0], b);
  }

  lemma EventHoldsComponent(reports: map<Id, Report>, event: seq<Id>, a: Id)
    requires IsEvent(reports, event) && a in event
    ensures a in reports && IdSet(event) == Component(reports, a)
  {
    assert a in IdSet(event);
    ComponentsAgree(reports, event[0], a);
  }

  /** Two reports are one event exactly when a chain of bound reports joins them. */
  lemma SameEventIffChained(reports: map<Id, Report>, events: seq<seq<Id>>, a: Id, b: Id)
    requires IsClustering(reports, events) && a in reports && b in reports
    ensures Together(events, a, b) <==> Connected(reports, a, b)
  {
    if Together(events, a, b) {
      var k :| 0 <= k < |events| && a in events[k] && b in events[k];
      MembersAreConnected(reports, events[k], a, b);
    }
    if Connected(reports, a, b) {
      assert Held(events, a);
      var k :| 0 <= k < |events| && a in events[k];
      EventHoldsComponent(reports, events[k], a);
      assert b in IdSet(events[k]);
    }
  }

  lemma EventOfItsMember(reports: map<Id, Report>, e: seq<Id>, f: seq<Id>, a: Id)
    requires IsEvent(reports, e) && IsEvent(reports, f) && a in e && a in f
    ensures e == f
  {
    EventHoldsComponent(reports, e, a);
    EventHoldsComponent(reports, f, a);
    forall x
      ensures x in e <==> x in f
    {
      assert x in IdSet(e) <==> x in IdSet(f);
    }
    AscendingListingIsUnique(e, f);
  }

  /** The events partition the reports: each report is in exactly one of them. */
  lemma EventsPartition(reports: map<Id, Report>, events: seq<seq<Id>>, a: Id)
    requires IsClustering(reports, events)
    ensures a in reports <==> Held(events, a)
    ensures forall j, k :: 0 <= j < |events| && 0 <= k < |events| && a in events[j] && a in events[k] ==> j == k
  {
    if Held(events, a) {
      var k :| 0 <= k < |events| && a in events[k];
      EventHoldsComponent(reports, events[k], a);
    }
    forall j, k | 0 <= j < |events| && 0 <= k < |events| && a in events[j] && a in events[k]
      ensures j == k
    {
      EventOfItsMember(reports, events[j], events[k], a);
    }
  }

  ghost function Names(events: seq<seq<Id>>): seq<Id>
    requires forall k :: 0 <= k < |events| ==> events[k] != []
  {
    seq(|events|, k requires 0 <= k < |events| => events[k][0])
  }

  lemma NamesAmong(reports: map<Id, Report>, e: seq<seq<Id>>, f: seq<seq<Id>>, name: Id)
    requires IsClustering(reports, e) && IsClustering(reports, f) && name in Names(e)
    ensures name in Names(f)
  {
    var j :| 0 <= j < |e| && Names(e)[j] == name;
    assert name in e[j];
    EventsPartition(reports, f, name);
    var k :| 0 <= k < |f| && name in f[k];
    EventOfItsMember(reports, e[j], f[k], name);
    assert Names(f)[k] == name;
  }

  /** One set of reports has one clustering: neither the order of the dict nor that of the binders shows. */
  lemma ClusteringIsUnique(reports: map<Id, Report>, e: seq<seq<Id>>, f: seq<seq<Id>>)
    requires IsClustering(reports, e) && IsClustering(reports, f)
    ensures e == f
  {
    forall name
      ensures name in Names(e) <==> name in Names(f)
    {
      if name in Names(e) { NamesAmong(reports, e, f, name); }
      if name in Names(f) { NamesAmong(reports, f, e, name); }
    }
    AscendingListingIsUnique(Names(e), Names(f));
    forall k | 0 <= k < |e|
      ensures e[k] == f[k]
    {
      assert Names(e)[k] == Names(f)[k];
      assert e[k][0] in e[k] && f[k][0] in f[k];
      EventOfItsMember(reports, e[k], f[k], e[k][0]);
    }
    assert |e| == |Names(e)| == |Names(f)| == |f|;
  }

  ghost predicate Grows(reports: map<Id, Report>, more: map<Id, Report>) {
    forall id :: id in reports ==> id in more && more[id] == reports[id]
  }

  lemma ConnectedGrows(reports: map<Id, Report>, more: map<Id, Report>, a: Id, b: Id)
    requires Grows(reports, more) && Connected(reports, a, b)
    ensures Connected(more, a, b)
  {
    var path :| Joins(reports, path, a, b);
    forall i | 0 <= i < |path| - 1
      ensures Bound(more, path[i], path[i + 1])
    {
      assert Bound(reports, path[i], path[i + 1]);
    }
    assert Joins(more, path, a, b);
  }

  /** New reports never split an event. */
  lemma EventsNeverSplit(
    reports: map<Id, Report>, events: seq<seq<Id>>, more: map<Id, Report>, later: seq<seq<Id>>, event: seq<Id>)
    requires Grows(reports, more)
    requires IsClustering(reports, events) && IsClustering(more, later) && event in events
    ensures exists k :: 0 <= k < |later| && IdSet(event) <= IdSet(later[k])
  {
    var name := event[0];
    EventsPartition(more, later, name);
    var k :| 0 <= k < |later| && name in later[k];
    EventHoldsComponent(more, later[k], name);
    forall x | x in IdSet(event)
      ensures x in IdSet(later[k])
    {
      ConnectedGrows(reports, more, name, x);
    }
  }

  lemma LeastIsFirst(event: seq<Id>, a: Id)
    requires StrictlyAscending(event) && a in event
    ensures event[0] <= a
  {
    var i :| 0 <= i < |event| && event[i] == a;
    if i > 0 { assert event[0] < event[i]; }
  }

  /**
   When every new report has a larger id, an event keeps its name: a later event that holds
   any old report is named by the least of the old events it holds.
   */
  lemma EventsKeepTheirNames(
    reports: map<Id, Report>, events: seq<seq<Id>>, more: map<Id, Report>, later: seq<seq<Id>>, k: nat, a: Id)
    requires Grows(reports, more)
    requires forall old_, new_ :: old_ in reports && new_ in more && new_ !in reports ==> old_ < new_
    requires IsClustering(reports, events) && IsClustering(more, later)
    requires k < |later| && a in later[k] && a in reports
    ensures exists j :: 0 <= j < |events| && events[j][0] == later[k][0]
    ensures forall j :: 0 <= j < |events| && events[j][0] in later[k] ==> later[k][0] <= events[j][0]
  {
    var event := later[k];
    var name := event[0];
    assert name in event;
    LeastIsFirst(event, a);
    assert name in reports;
    EventsPartition(reports, events, name);
    var j :| 0 <= j < |events| && name in events[j];
    LeastIsFirst(events[j], name);
    EventsNeverSplit(reports, events, more, later, events[j]);
    var i :| 0 <= i < |later| && IdSet(events[j]) <= IdSet(later[i]);
    assert name in IdSet(events[j]) && events[j][0] in IdSet(events[j]);
    EventsPartition(more, later, name);
    LeastIsFirst(event, events[j][0]);
    forall l | 0 <= l < |events| && events[l][0] in event
      ensures name <= events[l][0]
    {
      LeastIsFirst(event, events[l][0]);
    }
  }

  /** `next(found for found in events if id is in it)` */
  method EventOf(ghost reports: map<Id, Report>, events: seq<seq<Id>>, id: Id) returns (event: seq<Id>)
    requires IsClustering(reports, events) && id in reports
    ensures event in events && id in event && IsEvent(reports, event)
    ensures IdSet(event) == Component(reports, id)
  {
    assert Held(events, id);
    for k := 0 to |events|
      invariant forall j :: 0 <= j < k ==> id !in events[j]
    {
      if id in events[k] {
        EventHoldsComponent(reports, events[k], id);
        return events[k];
      }
    }
    assert false;
  }
}

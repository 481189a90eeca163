/**
 `_clusters`: reports of one type, one known day and a common binding person are one
 event, through any chain of such reports.
 */
module Clusters {
  import opened Wrappers
  import opened Dicts
  import opened Sorting
  import opened Reports
  import UnionFind

  // The specification: connected components of the "bound" relation

  /** Two reports of one type and one known day that name a common binding person. */
  ghost predicate Bound(reports: map<Id, Report>, a: Id, b: Id) {
    && a in reports && b in reports
    && reports[a].fact.kind == reports[b].fact.kind
    && reports[a].fact.day.Some? && reports[a].fact.day == reports[b].fact.day
    && exists group :: group in reports[a].binders && group in reports[b].binders
  }

  ghost predicate Chain(reports: map<Id, Report>, path: seq<Id>) {
    && (forall i :: 0 <= i < |path| ==> path[i] in reports)
    && (forall i :: 0 <= i < |path| - 1 ==> Bound(reports, path[i], path[i + 1]))
  }

  ghost predicate Joins(reports: map<Id, Report>, path: seq<Id>, a: Id, b: Id) {
    path != [] && path[0] == a && path[|path| - 1] == b && Chain(reports, path)
  }

  ghost predicate Connected(reports: map<Id, Report>, a: Id, b: Id) {
    exists path :: Joins(reports, path, a, b)
  }

  lemma ConnectedReflexive(reports: map<Id, Report>, a: Id)
    requires a in reports
    ensures Connected(reports, a, a)
  {
    assert Joins(reports, [a], a, a);
  }

  lemma BoundConnects(reports: map<Id, Report>, a: Id, b: Id)
    requires Bound(reports, a, b)
    ensures Connected(reports, a, b)
  {
    assert Joins(reports, [a, b], a, b);
  }

  lemma ConnectedTransitive(reports: map<Id, Report>, a: Id, b: Id, c: Id)
    requires Connected(reports, a, b) && Connected(reports, b, c)
    ensures Connected(reports, a, c)
  {
    var p :| Joins(reports, p, a, b);
    var q :| Joins(reports, q, b, c);
    var path := p + q[1..];
    forall i | 0 <= i < |path| - 1
      ensures Bound(reports, path[i], path[i + 1])
    {
      if i < |p| - 1 {
        assert path[i] == p[i] && path[i + 1] == p[i + 1];
      } else {
        var j := i - (|p| - 1);
        assert path[i] == q[j] && path[i + 1] == q[j + 1];
      }
    }
    assert Joins(reports, path, a, c);
  }

  lemma ConnectedSymmetric(reports: map<Id, Report>, a: Id, b: Id)
    requires Connected(reports, a, b)
    ensures Connected(reports, b, a)
  {
    var p :| Joins(reports, p, a, b);
    var q := seq(|p|, i requires 0 <= i < |p| => p[|p| - 1 - i]);
    forall i | 0 <= i < |q| - 1
      ensures Bound(reports, q[i], q[i + 1])
    {
      var j := |p| - 2 - i;
      assert Bound(reports, p[j], p[j + 1]);
    }
    assert Joins(reports, q, b, a);
  }

  ghost function Component(reports: map<Id, Report>, a: Id): set<Id> {
    set b | b in reports && Connected(reports, a, b)
  }

  lemma ComponentsAgree(reports: map<Id, Report>, a: Id, b: Id)
    requires Connected(reports, a, b)
    ensures Component(reports, a) == Component(reports, b)
  {
    ConnectedSymmetric(reports, a, b);
    forall c
      ensures c in Component(reports, a) <==> c in Component(reports, b)
    {
      if c in Component(reports, a) { ConnectedTransitive(reports, b, a, c); }
      if c in Component(reports, b) { ConnectedTransitive(reports, a, b, c); }
    }
  }

  ghost function IdSet(event: seq<Id>): set<Id> {
    set id | id in event
  }

  /** A whole component in ascending id, so named by its least report. */
  ghost predicate IsEvent(reports: map<Id, Report>, event: seq<Id>) {
    && event != [] && StrictlyAscending(event) && event[0] in reports
    && IdSet(event) == Component(reports, event[0])
  }

  ghost predicate Held(events: seq<seq<Id>>, id: Id) {
    exists k :: 0 <= k < |events| && id in events[k]
  }

  /**
   What the page shows: each event a whole component in ascending id, the events in
   ascending order of their first report, and every report in some event.
   */
  ghost predicate IsClustering(reports: map<Id, Report>, events: seq<seq<Id>>) {
    && (forall k :: 0 <= k < |events| ==> IsEvent(reports, events[k]))
    && (forall j, k :: 0 <= j < k < |events| ==> events[j][0] < events[k][0])
    && (forall id {:trigger Held(events, id)} :: id in reports ==> Held(events, id))
  }

  // The algorithm

  datatype Key = Key(kind: Kind, day: Day, group: Group)

  ghost predicate HasKey(reports: map<Id, Report>, id: Id, key: Key) {
    && id in reports
    && reports[id].fact.kind == key.kind && reports[id].fact.day == Some(key.day)
    && key.group in reports[id].binders
  }

  /** A report already taken under `key` is in one tree with the first report of that key. */
  ghost predicate TakenUnder(first: map<Key, Id>, roots: map<Id, Id>, id: Id, key: Key) {
    key in first && id in roots && first[key] in roots && roots[id] == roots[first[key]]
  }

  ghost predicate TreesConnect(reports: map<Id, Report>, roots: map<Id, Id>) {
    forall id {:trigger Connected(reports, id, roots[id])} :: id in roots ==> Connected(reports, id, roots[id])
  }

  lemma JoinConnects(reports: map<Id, Report>, before: map<Id, Id>, after: map<Id, Id>, id: Id, other: Id)
    requires before.Keys == reports.Keys && TreesConnect(reports, before)
    requires Bound(reports, id, other)
    requires id in before && other in before && after == UnionFind.Rerooted(before, before[id], before[other])
    ensures TreesConnect(reports, after)
  {
    BoundConnects(reports, id, other);
    assert Connected(reports, id, before[id]) && Connected(reports, other, before[other]);
    ConnectedSymmetric(reports, id, before[id]);
    ConnectedTransitive(reports, before[id], id, other);
    ConnectedTransitive(reports, before[id], other, before[other]);
    forall x | x in after
      ensures Connected(reports, x, after[x])
    {
      assert Connected(reports, x, before[x]);
      if before[x] == before[id] { ConnectedTransitive(reports, x, before[id], before[other]); }
    }
  }

  /** Every report of `done` is taken under each of its keys. */
  ghost predicate Taken(reports: map<Id, Report>, first: map<Key, Id>, roots: map<Id, Id>, done: set<Id>) {
    forall id, key :: id in done && HasKey(reports, id, key) ==> TakenUnder(first, roots, id, key)
  }

  /** What the loops keep: trees only of connected reports, and the `first` index true to its keys. */
  ghost predicate Sound(reports: map<Id, Report>, first: map<Key, Id>, forest: UnionFind.Forest)
    reads forest
  {
    && forest.Valid() && forest.parent.Keys == reports.Keys
    && TreesConnect(reports, forest.roots)
    && forall key {:trigger HasKey(reports, first[key], key)} :: key in first ==> HasKey(reports, first[key], key)
  }

  ghost predicate Merged(before: map<Id, Id>, after: map<Id, Id>) {
    && before.Keys == after.Keys
    && forall x, y :: x in before && y in before && before[x] == before[y] ==> after[x] == after[y]
  }

  lemma TakenPersists(
    reports: map<Id, Report>, first: map<Key, Id>, later: map<Key, Id>, before: map<Id, Id>, after: map<Id, Id>,
    done: set<Id>)
    requires Taken(reports, first, before, done) && Merged(before, after)
    requires forall key :: key in first ==> key in later && later[key] == first[key]
    ensures Taken(reports, later, after, done)
  {
    forall id, key | id in done && HasKey(reports, id, key)
      ensures TakenUnder(later, after, id, key)
    {
      assert TakenUnder(first, before, id, key);
    }
  }

  lemma NextPrefix(keys: seq<Id>, i: nat)
    requires i < |keys|
    ensures IdSet(keys[..i + 1]) == IdSet(keys[..i]) + {keys[i]}
  {
    assert keys[..i + 1] == keys[..i] + [keys[i]];
  }

  lemma WholePrefix(reports: Dict<Id, Report>)
    requires reports.Valid()
    ensures IdSet(reports.keys[..|reports.keys|]) == reports.items.Keys
  {
    assert reports.keys[..|reports.keys|] == reports.keys;
  }

  lemma TakenMore(reports: map<Id, Report>, first: map<Key, Id>, roots: map<Id, Id>, done: set<Id>, id: Id)
    requires Taken(reports, first, roots, done) && Taken(reports, first, roots, {id})
    ensures Taken(reports, first, roots, done + {id})
  {
  }

  /** Two reports share a tree exactly when they are connected. */
  ghost predicate TreesExact(reports: map<Id, Report>, roots: map<Id, Id>) {
    && roots.Keys == reports.Keys
    && forall a, b {:trigger Connected(reports, a, b)} :: a in reports && b in reports ==>
         (roots[a] == roots[b] <==> Connected(reports, a, b))
  }

  /** Once every report is taken under all its keys, the trees are the components. */
  lemma {:induction false} ChainStaysInTree(
    reports: map<Id, Report>, first: map<Key, Id>, roots: map<Id, Id>, path: seq<Id>)
    requires roots.Keys == reports.Keys
    requires Taken(reports, first, roots, reports.Keys)
    requires path != [] && Chain(reports, path)
    ensures roots[path[0]] == roots[path[|path| - 1]]
  {
    if |path| > 1 {
      var a, b := path[0], path[1];
      assert Bound(reports, a, b);
      var group :| group in reports[a].binders && group in reports[b].binders;
      var key := Key(reports[a].fact.kind, reports[a].fact.day.value, group);
      assert HasKey(reports, a, key) && HasKey(reports, b, key);
      assert TakenUnder(first, roots, a, key) && TakenUnder(first, roots, b, key);
      ChainStaysInTree(reports, first, roots, path[1..]);
    }
  }

  lemma TreesAreComponents(reports: map<Id, Report>, first: map<Key, Id>, roots: map<Id, Id>)
    requires roots.Keys == reports.Keys && TreesConnect(reports, roots)
    requires Taken(reports, first, roots, reports.Keys)
    ensures TreesExact(reports, roots)
  {
    forall a, b | a in reports && b in reports
      ensures roots[a] == roots[b] <==> Connected(reports, a, b)
    {
      if roots[a] == roots[b] {
        assert Connected(reports, a, roots[a]) && Connected(reports, b, roots[b]);
        ConnectedSymmetric(reports, b, roots[b]);
        ConnectedTransitive(reports, a, roots[a], b);
      }
      if Connected(reports, a, b) {
        var path :| Joins(reports, path, a, b);
        ChainStaysInTree(reports, first, roots, path);
      }
    }
  }

  /** The union step for one report: joined to the first report of each key it carries, in any order of its binders. */
  method TakeReport(reports: map<Id, Report>, id: Id, first: map<Key, Id>, forest: UnionFind.Forest)
    returns (later: map<Key, Id>)
    requires id in reports && Sound(reports, first, forest)
    modifies forest
    ensures Sound(reports, later, forest)
    ensures Merged(old(forest.roots), forest.roots)
    ensures forall key :: key in first ==> key in later && later[key] == first[key]
    ensures Taken(reports, later, forest.roots, {id})
  {
    later := first;
    var report := reports[id];
    if report.fact.day.Some? {
      var order := AnyOrder(report.binders);
      for j := 0 to |order|
        invariant Sound(reports, later, forest)
        invariant Merged(old(forest.roots), forest.roots)
        invariant forall key :: key in first ==> key in later && later[key] == first[key]
        invariant forall key :: HasKey(reports, id, key) && key.group in order[..j] ==>
                    TakenUnder(later, forest.roots, id, key)
      {
        var group := order[j];
        var key := Key(report.fact.kind, report.fact.day.value, group);
        if key !in later { later := later[key := id]; }
        var other := later[key];
        assert HasKey(reports, other, key);
        assert group in report.binders && group in reports[other].binders;
        ghost var before := forest.roots;
        forest.Join(id, other);
        JoinConnects(reports, before, forest.roots, id, other);
      }
    }
  }

  /** The union step over every report, in any order of the dict: the trees become the components. */
  method Unite(reports: Dict<Id, Report>) returns (forest: UnionFind.Forest)
    requires reports.Valid()
    ensures fresh(forest) && forest.Valid() && forest.parent.Keys == reports.items.Keys
    ensures TreesExact(reports.items, forest.roots)
  {
    forest := new UnionFind.Forest(reports.items.Keys);
    var first: map<Key, Id> := map[];
    TreesConnectAtFirst(reports.items, forest.roots);
    for i := 0 to |reports.keys|
      invariant Sound(reports.items, first, forest)
      invariant Taken(reports.items, first, forest.roots, IdSet(reports.keys[..i]))
    {
      ghost var done, roots, earlier := IdSet(reports.keys[..i]), forest.roots, first;
      first := TakeReport(reports.items, reports.keys[i], first, forest);
      TakenPersists(reports.items, earlier, first, roots, forest.roots, done);
      TakenMore(reports.items, first, forest.roots, done, reports.keys[i]);
      NextPrefix(reports.keys, i);
    }
    WholePrefix(reports);
    TreesAreComponents(reports.items, first, forest.roots);
  }

  lemma TreesConnectAtFirst(reports: map<Id, Report>, roots: map<Id, Id>)
    requires roots.Keys == reports.Keys && forall id :: id in roots ==> roots[id] == id
    ensures TreesConnect(reports, roots)
  {
    forall id | id in roots
      ensures Connected(reports, id, roots[id])
    {
      ConnectedReflexive(reports, id);
    }
  }

  ghost function WithRoot(listed: seq<Id>, roots: map<Id, Id>, r: Id): set<Id> {
    set x | x in listed && x in roots && roots[x] == r
  }

  /** `list` holds exactly the reports of `listed` whose root is `r`, ascending, and there is one. */
  ghost predicate Lists(list: seq<Id>, listed: seq<Id>, roots: map<Id, Id>, r: Id) {
    && list != [] && StrictlyAscending(list)
    && IdSet(list) == WithRoot(listed, roots, r)
  }

  /** `members` holds, for each root met so far, the reports listed under it; the roots in the order first met. */
  ghost predicate Grouped(members: Dict<Id, seq<Id>>, roots: map<Id, Id>, listed: seq<Id>) {
    && members.Valid()
    && (forall r {:trigger members.items[r]} :: r in members.items ==> Lists(members.items[r], listed, roots, r))
    && (forall x :: x in listed ==> x in roots)
    && (forall x {:trigger roots[x]} :: x in listed ==> roots[x] in members.items)
    && (forall i, j :: 0 <= i < j < |members.keys| ==>
          members.items[members.keys[i]][0] < members.items[members.keys[j]][0])
  }

  /** `members[find(id)].append(id)` on a defaultdict of lists. */
  function Append(members: Dict<Id, seq<Id>>, root: Id, id: Id): Dict<Id, seq<Id>>
    requires members.Valid()
  {
    members.Put(root, (if root in members.items then members.items[root] else []) + [id])
  }

  lemma ListsMore(list: seq<Id>, listed: seq<Id>, roots: map<Id, Id>, r: Id, id: Id)
    requires list == [] || Lists(list, listed, roots, r)
    requires list == [] ==> WithRoot(listed, roots, r) == {}
    requires StrictlyAscending(listed + [id]) && id in roots
    ensures roots[id] == r ==> Lists(list + [id], listed + [id], roots, r)
    ensures roots[id] != r && list != [] ==> Lists(list, listed + [id], roots, r)
  {
    var all := listed + [id];
    assert IdSet(list) == WithRoot(listed, roots, r);
    assert WithRoot(all, roots, r) == WithRoot(listed, roots, r) + if roots[id] == r then {id} else {};
    if roots[id] == r {
      assert IdSet(list + [id]) == IdSet(list) + {id};
      forall i | 0 <= i < |list|
        ensures list[i] < id
      {
        assert list[i] in IdSet(list);
        var j :| 0 <= j < |listed| && listed[j] == list[i];
        assert all[j] < all[|listed|];
      }
    }
  }

  lemma AppendGroups(members: Dict<Id, seq<Id>>, roots: map<Id, Id>, listed: seq<Id>, id: Id)
    requires Grouped(members, roots, listed) && StrictlyAscending(listed + [id])
    requires id in roots
    ensures Grouped(Append(members, roots[id], id), roots, listed + [id])
  {
    var root, next := roots[id], Append(members, roots[id], id);
    forall r | r in next.items
      ensures Lists(next.items[r], listed + [id], roots, r)
    {
      if r !in members.items {
        forall x | x in listed
          ensures x !in WithRoot(listed, roots, r)
        {
          assert roots[x] in members.items;
        }
      }
      ListsMore(if r in members.items then members.items[r] else [], listed, roots, r, id);
    }
    forall i, j | 0 <= i < j < |next.keys|
      ensures next.items[next.keys[i]][0] < next.items[next.keys[j]][0]
    {
      var r := next.keys[i];
      assert r == members.keys[i] && r in members.items;
      assert Lists(members.items[r], listed, roots, r);
      assert next.items[r][0] == members.items[r][0];
      if j < |members.keys| {
        assert next.keys[j] in members.items;
        assert next.items[next.keys[j]][0] == members.items[members.keys[j]][0];
      } else {
        assert Lists(next.items[r], listed + [id], roots, r);
        FirstBelowLast(members.items[r], listed, id, IdSet(members.items[r]));
      }
    }
  }

  lemma FirstBelowLast(list: seq<Id>, listed: seq<Id>, id: Id, ids: set<Id>)
    requires list != [] && ids == IdSet(list) && StrictlyAscending(listed + [id])
    requires forall x :: x in ids ==> x in listed
    ensures list[0] < id
  {
    assert list[0] in ids;
    var j :| 0 <= j < |listed| && listed[j] == list[0];
    assert (listed + [id])[j] < (listed + [id])[|listed|];
  }

  lemma ListIsComponent(reports: map<Id, Report>, list: seq<Id>, listed: seq<Id>, roots: map<Id, Id>, r: Id)
    requires TreesExact(reports, roots) && IdSet(listed) == reports.Keys
    requires Lists(list, listed, roots, r)
    ensures IsEvent(reports, list)
  {
    var least := list[0];
    assert least in IdSet(list);
    assert least in IdSet(listed);
    forall x
      ensures x in WithRoot(listed, roots, r) <==> x in Component(reports, least)
    {
      if x in IdSet(listed) { assert roots[least] == roots[x] <==> Connected(reports, least, x); }
    }
  }

  lemma GroupsAreClustering(
    reports: map<Id, Report>, members: Dict<Id, seq<Id>>, roots: map<Id, Id>, listed: seq<Id>)
    requires TreesExact(reports, roots) && Grouped(members, roots, listed) && IdSet(listed) == reports.Keys
    ensures IsClustering(reports, members.Values())
  {
    forall k | 0 <= k < |members.keys|
      ensures IsEvent(reports, members.Values()[k])
    {
      var r := members.keys[k];
      assert r in members.items;
      ListIsComponent(reports, members.items[r], listed, roots, r);
    }
    forall id | id in reports
      ensures Held(members.Values(), id)
    {
      InSomeGroup(members, roots, listed, id);
    }
  }

  lemma InSomeGroup(members: Dict<Id, seq<Id>>, roots: map<Id, Id>, listed: seq<Id>, id: Id)
    requires Grouped(members, roots, listed) && id in IdSet(listed)
    ensures Held(members.Values(), id)
  {
    var r := roots[id];
    assert r in members.keys;
    var k :| 0 <= k < |members.keys| && members.keys[k] == r;
    assert Lists(members.items[r], listed, roots, r);
    assert id in IdSet(members.Values()[k]);
  }

  /** Reading the trees off in the order of the ids. */
  method ReadOff(forest: UnionFind.Forest, listed: seq<Id>) returns (members: Dict<Id, seq<Id>>)
    requires forest.Valid() && StrictlyAscending(listed)
    requires forall id :: id in listed ==> id in forest.parent
    modifies forest`parent
    ensures Grouped(members, forest.roots, listed)
  {
    members := Empty();
    for i := 0 to |listed|
      invariant forest.Valid() && forest.parent.Keys == old(forest.parent.Keys)
      invariant Grouped(members, forest.roots, listed[..i])
    {
      var id := listed[i];
      assert id in listed;
      var root := forest.Find(id);
      assert listed[..i] + [id] == listed[..i + 1];
      AppendGroups(members, forest.roots, listed[..i], id);
      members := Append(members, root, id);
    }
    assert listed[..|listed|] == listed;
  }

  /** `_clusters`: whatever the order of the dict and of each set of binders, the clustering of the reports. */
  method Cluster(reports: Dict<Id, Report>) returns (events: seq<seq<Id>>)
    requires reports.Valid()
    ensures IsClustering(reports.items, events)
  {
    var forest := Unite(reports);
    var listed := SortIds(reports.keys);
    SortIdsAscends(reports.keys);
    forall id
      ensures id in IdSet(listed) <==> id in reports.items
    {
      assert id in listed <==> id in reports.keys;
    }
    var members := ReadOff(forest, listed);
    GroupsAreClustering(reports.items, members, forest.roots, listed);
    events := members.Values();
  }
}

/**
 The fold of query rows into reports: one row per person a report names, several rows of
 one report anywhere in the list, a person named twice keeping the least role.
 */
module Reports {
  import opened Wrappers
  import opened Dicts
  import opened Texts

  type Id = int
  type Group = int
  type Day = int
  type Role = string
  type Kind = string

  /** What a row says of its report, whoever it names: the same in every row of one report. */
  datatype Fact = Fact(kind: Kind, day: Option<Day>, dated: bool, article: Id)

  datatype Row = Row(id: Id, fact: Fact, group: Option<Group>, role: Role, binds: bool)

  datatype Report = Report(fact: Fact, people: map<Group, Role>, binders: set<Group>)

  ghost predicate Names(row: Row, id: Id, group: Group) {
    row.id == id && row.group == Some(group)
  }

  /** `report` is what the rows say of `id`, in whatever order they say it. */
  ghost predicate Gathers(rows: set<Row>, id: Id, report: Report) {
    && (exists row :: row in rows && row.id == id && row.fact == report.fact)
    && (forall row :: row in rows && row.id == id && row.group.Some? ==>
          row.group.value in report.people && LexLe(report.people[row.group.value], row.role))
    && (forall g :: g in report.people ==>
          exists row :: row in rows && Names(row, id, g) && row.role == report.people[g])
    && (forall g :: g in report.binders ==> exists row :: row in rows && Names(row, id, g) && row.binds)
    && (forall row :: row in rows && row.id == id && row.group.Some? && row.binds ==>
          row.group.value in report.binders)
  }

  ghost predicate GathersAll(rows: set<Row>, found: map<Id, Report>) {
    && (forall row :: row in rows ==> row.id in found)
    && (forall id {:trigger Gathers(rows, id, found[id])} :: id in found ==> Gathers(rows, id, found[id]))
  }

  /** One row taken into its report. */
  function Absorb(report: Report, row: Row): Report {
    match row.group
    case None => report
    case Some(g) =>
      Report(
        report.fact,
        report.people[g := LexMin(row.role, if g in report.people then report.people[g] else row.role)],
        if row.binds then report.binders + {g} else report.binders)
  }

  lemma AbsorbGathers(rows: set<Row>, report: Report, row: Row)
    requires Gathers(rows, row.id, report)
    ensures Gathers(rows + {row}, row.id, Absorb(report, row))
  {
    var all, next := rows + {row}, Absorb(report, row);
    forall g | g in next.people
      ensures exists r :: r in all && Names(r, row.id, g) && r.role == next.people[g]
    {
      if row.group == Some(g) && next.people[g] == row.role {
        assert Names(row, row.id, g);
      } else {
        var r :| r in rows && Names(r, row.id, g) && r.role == report.people[g];
        assert r in all;
      }
    }
    forall r | r in all && r.id == row.id && r.group.Some?
      ensures r.group.value in next.people && LexLe(next.people[r.group.value], r.role)
    {
      var g := r.group.value;
      if r in rows { LexTransitive(next.people[g], report.people[g], r.role); }
    }
    forall g | g in next.binders
      ensures exists r :: r in all && Names(r, row.id, g) && r.binds
    {
      if g in report.binders {
        var r :| r in rows && Names(r, row.id, g) && r.binds;
        assert r in all;
      } else {
        assert Names(row, row.id, g);
      }
    }
  }

  lemma GathersMore(rows: set<Row>, id: Id, report: Report, row: Row)
    requires Gathers(rows, id, report) && row.id != id
    ensures Gathers(rows + {row}, id, report)
  {
    var all := rows + {row};
    var first :| first in rows && first.id == id && first.fact == report.fact;
    assert first in all;
    forall g | g in report.people
      ensures exists r :: r in all && Names(r, id, g) && r.role == report.people[g]
    {
      var r :| r in rows && Names(r, id, g) && r.role == report.people[g];
      assert r in all;
    }
    forall g | g in report.binders
      ensures exists r :: r in all && Names(r, id, g) && r.binds
    {
      var r :| r in rows && Names(r, id, g) && r.binds;
      assert r in all;
    }
  }

  ghost function RowSet(rows: seq<Row>): set<Row> {
    set row | row in rows
  }

  /** `found.setdefault(row.id, ...)`, then the row taken into that report. */
  function AbsorbInto(found: Dict<Id, Report>, row: Row): (next: Dict<Id, Report>)
    requires found.Valid()
    ensures next.Valid()
    ensures next.items == Absorbed(found.items, row)
  {
    var started := found.SetDefault(row.id, Report(row.fact, map[], {}));
    started.Put(row.id, Absorb(started.items[row.id], row))
  }

  function Absorbed(before: map<Id, Report>, row: Row): map<Id, Report> {
    before[row.id := Absorb(if row.id in before then before[row.id] else Report(row.fact, map[], {}), row)]
  }

  /** The dict after one row is gathered from one row more. */
  lemma FoldStep(rows: set<Row>, before: map<Id, Report>, row: Row)
    requires GathersAll(rows, before)
    ensures GathersAll(rows + {row}, Absorbed(before, row))
  {
    var after := Absorbed(before, row);
    if row.id in before {
      AbsorbGathers(rows, before[row.id], row);
    } else {
      StartGathers(rows, row);
    }
    forall id | id in after
      ensures Gathers(rows + {row}, id, after[id])
    {
      if id != row.id { GathersMore(rows, id, before[id], row); }
    }
  }

  lemma NextRow(rows: seq<Row>, i: nat)
    requires i < |rows|
    ensures RowSet(rows[..i + 1]) == RowSet(rows[..i]) + {rows[i]}
  {
    assert rows[..i + 1] == rows[..i] + [rows[i]];
  }

  /** `_reports`: the reports of the rows, keyed by id in the order the rows first name them. */
  method FoldRows(rows: seq<Row>) returns (found: Dict<Id, Report>)
    ensures found.Valid()
    ensures GathersAll(RowSet(rows), found.items)
  {
    found := Empty();
    for i := 0 to |rows|
      invariant found.Valid()
      invariant GathersAll(RowSet(rows[..i]), found.items)
    {
      var row := rows[i];
      FoldStep(RowSet(rows[..i]), found.items, row);
      found := AbsorbInto(found, row);
      NextRow(rows, i);
    }
    assert rows[..|rows|] == rows;
  }

  lemma StartGathers(rows: set<Row>, row: Row)
    requires forall r :: r in rows ==> r.id != row.id
    ensures Gathers(rows + {row}, row.id, Absorb(Report(row.fact, map[], {}), row))
  {
    assert row in rows + {row};
    assert row.group.Some? ==> Names(row, row.id, row.group.value);
  }

  // What the fold gives does not depend on the order of the rows

  ghost predicate OneFactEach(rows: set<Row>) {
    forall a, b :: a in rows && b in rows && a.id == b.id ==> a.fact == b.fact
  }

  lemma GathersIsFunctional(rows: set<Row>, id: Id, a: Report, b: Report)
    requires OneFactEach(rows)
    requires Gathers(rows, id, a) && Gathers(rows, id, b)
    ensures a == b
  {
    forall g
      ensures g in a.people <==> g in b.people
      ensures g in a.people ==> a.people[g] == b.people[g]
    {
      if g in a.people { LeastRoleBelow(rows, id, b, a, g); }
      if g in b.people { LeastRoleBelow(rows, id, a, b, g); }
      if g in a.people { LexAntisymmetric(a.people[g], b.people[g]); }
    }
    assert a.people == b.people;
    forall g
      ensures g in a.binders <==> g in b.binders
    {
      if g in a.binders { var row :| row in rows && Names(row, id, g) && row.binds; }
      if g in b.binders { var row :| row in rows && Names(row, id, g) && row.binds; }
    }
  }

  lemma LeastRoleBelow(rows: set<Row>, id: Id, a: Report, b: Report, g: Group)
    requires Gathers(rows, id, a) && Gathers(rows, id, b) && g in b.people
    ensures g in a.people && LexLe(a.people[g], b.people[g])
  {
    var row :| row in rows && Names(row, id, g) && row.role == b.people[g];
  }

  /** Two foldings of the same rows, in any two orders and with any repetitions, agree on every report. */
  lemma FoldIgnoresOrder(rows: set<Row>, a: map<Id, Report>, b: map<Id, Report>)
    requires OneFactEach(rows)
    requires GathersAll(rows, a) && GathersAll(rows, b)
    ensures a == b
  {
    forall id
      ensures id in a <==> id in b
      ensures id in a ==> a[id] == b[id]
    {
      if id in a { assert Gathers(rows, id, a[id]); }
      if id in b { assert Gathers(rows, id, b[id]); }
      if id in a && id in b { GathersIsFunctional(rows, id, a[id], b[id]); }
    }
  }

  // The role of a person over a whole event

  /** `_Event.role_of`: the least role the reports of the event give the person, if any does. */
  function RoleOf(reports: map<Id, Report>, event: seq<Id>, group: Group): (role: Option<Role>)
    requires forall id :: id in event ==> id in reports
  {
    if event == [] then None
    else
      var id := event[0];
      assert id in event;
      var rest := RoleOf(reports, event[1..], group);
      var people := reports[id].people;
      if group !in people then rest
      else if rest.None? then Some(people[group])
      else Some(LexMin(people[group], rest.value))
  }

  /** The answer is given by some row of some report of the event, and no row of any of them gives less. */
  lemma {:induction false} RoleOfIsLeast(
    rows: set<Row>, reports: map<Id, Report>, event: seq<Id>, group: Group)
    requires forall id :: id in event ==> id in reports
    requires GathersAll(rows, reports)
    ensures RoleOf(reports, event, group).Some? <==>
            exists row :: row in rows && row.id in event && row.group == Some(group)
    ensures RoleOf(reports, event, group).Some? ==>
              exists row :: row in rows && row.id in event && row.group == Some(group)
                            && row.role == RoleOf(reports, event, group).value
    ensures forall row :: row in rows && row.id in event && row.group == Some(group) ==>
              LexLe(RoleOf(reports, event, group).value, row.role)
  {
    if event != [] {
      var id, rest := event[0], event[1..];
      var role, later := RoleOf(reports, event, group), RoleOf(reports, rest, group);
      RoleOfIsLeast(rows, reports, rest, group);
      assert Gathers(rows, id, reports[id]);
      assert event == [id] + rest;
      if group in reports[id].people {
        var row :| row in rows && Names(row, id, group) && row.role == reports[id].people[group];
        assert row.id in event;
        if role.value != row.role {
          var other :| other in rows && other.id in rest && other.group == Some(group) && other.role == later.value;
          assert other.id in event;
        }
      } else if later.Some? {
        var other :| other in rows && other.id in rest && other.group == Some(group) && other.role == later.value;
        assert other.id in event;
      }
      forall row | row in rows && row.id in event && row.group == Some(group)
        ensures role.Some? && LexLe(role.value, row.role)
      {
        if row.id == id {
          LexTransitive(role.value, reports[id].people[group], row.role);
        } else {
          assert row.id in rest;
          LexTransitive(role.value, later.value, row.role);
        }
      }
    }
  }

  // What least means

  /** No row of the person gives a role that comes before the one kept: neither by a first difference nor as its start. */
  lemma KeptRoleIsFirst(rows: set<Row>, id: Id, report: Report, row: Row, p: string, c: char, s: string, d: char, t: string)
    requires Gathers(rows, id, report) && row in rows && row.id == id && row.group.Some?
    ensures row.group.value in report.people
    ensures c < d && row.role == p + [c] + s ==> report.people[row.group.value] != p + [d] + t
    ensures row.role == p && s != [] ==> report.people[row.group.value] != p + s
  {
    if c < d { FirstDifference(p, c, s, d, t); }
    ShorterFirst(p, s);
  }

  /** The same of the role over a whole event. */
  lemma EventRoleIsFirst(
    rows: set<Row>, reports: map<Id, Report>, event: seq<Id>, row: Row, p: string, c: char, s: string, d: char, t: string)
    requires forall id :: id in event ==> id in reports
    requires GathersAll(rows, reports) && row in rows && row.id in event && row.group.Some?
    ensures c < d && row.role == p + [c] + s ==> RoleOf(reports, event, row.group.value) != Some(p + [d] + t)
    ensures row.role == p && s != [] ==> RoleOf(reports, event, row.group.value) != Some(p + s)
  {
    RoleOfIsLeast(rows, reports, event, row.group.value);
    if c < d { FirstDifference(p, c, s, d, t); }
    ShorterFirst(p, s);
  }
}

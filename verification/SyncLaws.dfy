/** What a copy of a view promises: exact contents, counters that add up, idempotence, and no collapse. */
module SyncLaws {
  import opened Wrappers
  import opened TableSync

  // Exact contents

  /** The last entry of an id that carries values. */
  ghost predicate IsLast<V>(entries: seq<Entry<V>>, i: nat, id: string) {
    && i < |entries| && entries[i].id == id && entries[i].values.Some?
    && forall j :: i < j < |entries| && entries[j].id == id ==> entries[j].values.None?
  }

  lemma {:induction false} LastStands<V>(old_: map<string, V>, entries: seq<Entry<V>>, i: nat, id: string)
    requires IsLast(entries, i, id)
    ensures id in Usable(entries)
    ensures id in Upserted(old_, entries) && Upserted(old_, entries)[id] == entries[i].values.value
  {
    var n := |entries| - 1;
    if i < n {
      assert entries[..n][i] == entries[i];
      LastStands(old_, entries[..n], i, id);
    }
  }

  lemma {:induction false} UsableHasLast<V>(entries: seq<Entry<V>>, id: string) returns (i: nat)
    requires id in Usable(entries)
    ensures IsLast(entries, i, id)
  {
    i := |entries| - 1;
    if entries[i].id != id || entries[i].values.None? {
      var n := i;
      i := UsableHasLast(entries[..n], id);
    }
  }

  lemma {:induction false} UntouchedStays<V>(old_: map<string, V>, entries: seq<Entry<V>>, id: string)
    requires id !in Usable(entries)
    ensures id in Upserted(old_, entries) <==> id in old_
    ensures id in old_ ==> Upserted(old_, entries)[id] == old_[id]
  {
    if entries != [] { UntouchedStays(old_, entries[..|entries| - 1], id); }
  }

  lemma {:induction false} UsableAreListed<V>(entries: seq<Entry<V>>)
    ensures Usable(entries) <= Listed(entries)
  {
    if entries != [] { UsableAreListed(entries[..|entries| - 1]); }
  }

  lemma {:induction false} ListedAre<V>(entries: seq<Entry<V>>, id: string)
    ensures id in Listed(entries) <==> exists i :: 0 <= i < |entries| && entries[i].id == id
  {
    if entries != [] {
      var n := |entries| - 1;
      ListedAre(entries[..n], id);
      if i :| 0 <= i < |entries| && entries[i].id == id {
        if i < n { assert entries[..n][i].id == id; }
      }
      if i :| 0 <= i < |entries[..n]| && entries[..n][i].id == id { assert entries[i].id == id; }
    }
  }

  /** The articles list becomes the export: its ids are the usable records', its rows their last values. */
  lemma ArticlesBecomeTheExport<V>(old_: map<string, V>, entries: seq<Entry<V>>, id: string)
    ensures
      var after := After(old_, entries, Usable(entries), true);
      && (id in after <==> id in Usable(entries))
      && (id in after ==> exists i: nat :: IsLast(entries, i, id) && after[id] == entries[i].values.value)
  {
    UpsertedKeys(old_, entries);
    if id in Usable(entries) {
      var i := UsableHasLast(entries, id);
      LastStands(old_, entries, i, id);
    }
  }

  /**
   The people list becomes the named records, and keeps as they were the old rows whose record is
   still listed though it names nobody.
   */
  lemma PersonsBecomeTheExport<V>(old_: map<string, V>, entries: seq<Entry<V>>, id: string)
    ensures
      var after := After(old_, entries, Listed(entries), true);
      && (id in after <==> id in Usable(entries) || (id in old_ && id in Listed(entries)))
      && (id in Usable(entries) ==> exists i: nat :: IsLast(entries, i, id) && after[id] == entries[i].values.value)
      && (id in after && id !in Usable(entries) ==> after[id] == old_[id])
  {
    UpsertedKeys(old_, entries);
    UsableAreListed(entries);
    if id in Usable(entries) {
      var i := UsableHasLast(entries, id);
      LastStands(old_, entries, i, id);
    } else {
      UntouchedStays(old_, entries, id);
    }
  }

  /** Without `replace` no row is ever lost. */
  lemma NothingLostWithoutReplace<V>(old_: map<string, V>, entries: seq<Entry<V>>, keep: set<string>)
    ensures old_.Keys <= After(old_, entries, keep, false).Keys
    ensures forall id :: id in old_ && id !in Usable(entries) ==> After(old_, entries, keep, false)[id] == old_[id]
  {
    UpsertedKeys(old_, entries);
    forall id | id in old_ && id !in Usable(entries)
      ensures After(old_, entries, keep, false)[id] == old_[id]
    {
      UntouchedStays(old_, entries, id);
    }
  }

  /** The table either way, id by id: the last values written, else the old row where it stays. */
  lemma TableAfter<V>(old_: map<string, V>, entries: seq<Entry<V>>, keep: set<string>, replace: bool, id: string)
    requires Usable(entries) <= keep
    ensures
      var after := After(old_, entries, keep, replace);
      && (id in after <==> id in Usable(entries) || (id in old_ && (replace ==> id in keep)))
      && (id in after && id !in Usable(entries) ==> after[id] == old_[id])
      && (id in Usable(entries) <==> exists i: nat :: IsLast(entries, i, id))
      && (forall i: nat :: IsLast(entries, i, id) ==> id in after && after[id] == entries[i].values.value)
  {
    UpsertedKeys(old_, entries);
    if id in Usable(entries) { var _ := UsableHasLast(entries, id); } else { UntouchedStays(old_, entries, id); }
    forall i: nat | IsLast(entries, i, id)
      ensures id in Usable(entries) && id in Upserted(old_, entries) && Upserted(old_, entries)[id] == entries[i].values.value
    {
      LastStands(old_, entries, i, id);
    }
  }

  /** A key is violated when a new id is carried by two records that would be written, wherever they stand. */
  lemma {:induction false} ClashesIff<V>(old_: map<string, V>, entries: seq<Entry<V>>)
    ensures Clashes(old_, entries) <==> exists i, j :: ClashAt(old_, entries, i, j)
  {
    if entries != [] {
      var n := |entries| - 1;
      ClashesIff(old_, entries[..n]);
      if i, j :| ClashAt(old_, entries[..n], i, j) { assert ClashAt(old_, entries, i, j); }
      if i, j :| ClashAt(old_, entries, i, j) {
        if j < n {
          assert ClashAt(old_, entries[..n], i, j);
        } else {
          SomeUsable(entries[..n], i);
        }
      }
      if entries[n].values.Some? && entries[n].id !in old_ && entries[n].id in Usable(entries[..n]) {
        var i := UsableHasLast(entries[..n], entries[n].id);
        assert ClashAt(old_, entries, i, n);
      }
    }
  }

  ghost predicate ClashAt<V>(old_: map<string, V>, entries: seq<Entry<V>>, i: int, j: int) {
    && 0 <= i < j < |entries| && entries[i].id == entries[j].id && entries[i].id !in old_
    && entries[i].values.Some? && entries[j].values.Some?
  }

  // Counters

  /** The errors are the records that write nothing. */
  lemma {:induction false} ErrorsAreUnusable<V>(old_: map<string, V>, entries: seq<Entry<V>>)
    ensures Counted(old_, entries).errors == |set i | 0 <= i < |entries| && entries[i].values.None?|
  {
    if entries != [] {
      var n := |entries| - 1;
      ErrorsAreUnusable(old_, entries[..n]);
      var before := set i | 0 <= i < |entries[..n]| && entries[..n][i].values.None?;
      var all := set i | 0 <= i < |entries| && entries[i].values.None?;
      assert all == before + if entries[n].values.None? then {n} else {};
    }
  }

  lemma {:induction false} EveryRecordCounted<V>(old_: map<string, V>, entries: seq<Entry<V>>)
    ensures
      var t := Counted(old_, entries);
      t.created + t.updated + t.same + t.errors == |entries| && t.removed == 0
  {
    if entries != [] { EveryRecordCounted(old_, entries[..|entries| - 1]); }
  }

  lemma {:induction false} CreatedAreNewRows<V>(old_: map<string, V>, entries: seq<Entry<V>>)
    requires !Clashes(old_, entries)
    ensures |Upserted(old_, entries)| == |old_| + Counted(old_, entries).created
  {
    if entries != [] {
      var before := entries[..|entries| - 1];
      CreatedAreNewRows(old_, before);
      UpsertedKeys(old_, before);
    }
  }

  lemma RemovedAreTheRest<V>(table: map<string, V>, keep: set<string>)
    ensures |Restricted(table, keep)| + |table.Keys - keep| == |table|
  {
    assert Restricted(table, keep).Keys == table.Keys * keep;
    assert table.Keys == table.Keys * keep + (table.Keys - keep);
    assert |table.Keys * keep + (table.Keys - keep)| == |table.Keys * keep| + |table.Keys - keep|;
  }

  /** Every record received is counted once, and the rows after are the rows before, plus created, less removed. */
  lemma CountersAddUp<V>(old_: map<string, V>, entries: seq<Entry<V>>, keep: set<string>, replace: bool)
    requires Accepted(old_, entries, keep, replace)
    ensures
      var t := TallyOf(old_, entries, keep, replace);
      && t.created + t.updated + t.same + t.errors == |entries|
      && |After(old_, entries, keep, replace)| + t.removed == |old_| + t.created
  {
    EveryRecordCounted(old_, entries);
    CreatedAreNewRows(old_, entries);
    RemovedAreTheRest(Upserted(old_, entries), keep);
  }

  // Idempotence

  lemma {:induction false} UpsertTwice<V>(old_: map<string, V>, base: map<string, V>, entries: seq<Entry<V>>)
    requires forall id :: id in base && id !in Usable(entries) ==> id in old_ && base[id] == old_[id]
    requires forall id :: id in old_ && id !in Usable(entries) ==> id in base
    ensures Upserted(base, entries) == Upserted(old_, entries)
  {
    forall id
      ensures id in Upserted(base, entries) <==> id in Upserted(old_, entries)
      ensures id in Upserted(base, entries) ==> Upserted(base, entries)[id] == Upserted(old_, entries)[id]
    {
      if id in Usable(entries) {
        var i := UsableHasLast(entries, id);
        LastStands(old_, entries, i, id);
        LastStands(base, entries, i, id);
      } else {
        UntouchedStays(old_, entries, id);
        UntouchedStays(base, entries, id);
      }
    }
  }

  /** The same export again leaves the table as it is. */
  lemma SyncTwiceIsOnce<V>(old_: map<string, V>, entries: seq<Entry<V>>, keep: set<string>, replace: bool)
    requires Usable(entries) <= keep
    ensures
      var after := After(old_, entries, keep, replace);
      After(after, entries, keep, replace) == after
  {
    var after := After(old_, entries, keep, replace);
    var restricted := if replace then Restricted(old_, keep) else old_;
    UpsertedKeys(old_, entries);
    forall id | id !in Usable(entries)
      ensures id in after <==> id in restricted
      ensures id in after ==> after[id] == restricted[id]
    {
      UntouchedStays(old_, entries, id);
    }
    UpsertTwice(restricted, after, entries);
    forall id
      ensures id in Upserted(restricted, entries) <==> id in after
      ensures id in after ==> Upserted(restricted, entries)[id] == after[id]
    {
      if id in Usable(entries) {
        var i := UsableHasLast(entries, id);
        LastStands(old_, entries, i, id);
        LastStands(restricted, entries, i, id);
      } else {
        UntouchedStays(restricted, entries, id);
      }
    }
    assert Upserted(restricted, entries) == after;
  }

  /** Records of one id agree on what they write. */
  ghost predicate Consistent<V>(entries: seq<Entry<V>>) {
    forall i, j :: (0 <= i < j < |entries| && entries[i].id == entries[j].id && entries[i].values.Some?
                    && entries[j].values.Some?) ==> entries[i].values == entries[j].values
  }

  lemma {:induction false} NothingNew<V>(table: map<string, V>, entries: seq<Entry<V>>)
    requires Usable(entries) <= table.Keys
    ensures Counted(table, entries).created == 0 && !Clashes(table, entries)
  {
    if entries != [] { NothingNew(table, entries[..|entries| - 1]); }
  }

  lemma {:induction false} SameTwiceIfConsistent<V>(table: map<string, V>, entries: seq<Entry<V>>)
    requires Usable(entries) <= table.Keys
    requires forall i :: 0 <= i < |entries| && entries[i].values.Some? ==>
               entries[i].id in table && table[entries[i].id] == entries[i].values.value
    ensures Upserted(table, entries) == table && Counted(table, entries).updated == 0
  {
    if entries != [] {
      var n := |entries| - 1;
      SameTwiceIfConsistent(table, entries[..n]);
      assert entries[n].values.Some? ==> table[entries[n].id := entries[n].values.value] == table;
    }
  }

  lemma {:induction false} UpdatesNeverFall<V>(table: map<string, V>, entries: seq<Entry<V>>, n: nat)
    requires n <= |entries|
    ensures Counted(table, entries[..n]).updated <= Counted(table, entries).updated
    decreases |entries| - n
  {
    if n < |entries| {
      UpdatesNeverFall(table, entries, n + 1);
      assert entries[..n + 1][..n] == entries[..n];
    } else {
      assert entries[..n] == entries;
    }
  }

  lemma {:induction false} NoUpdateMeansSame<V>(table: map<string, V>, entries: seq<Entry<V>>)
    requires Usable(entries) <= table.Keys && Counted(table, entries).updated == 0
    ensures Upserted(table, entries) == table
    ensures forall i :: 0 <= i < |entries| && entries[i].values.Some? ==>
              entries[i].id in table && table[entries[i].id] == entries[i].values.value
  {
    if entries != [] {
      var n := |entries| - 1;
      UpdatesNeverFall(table, entries, n);
      NoUpdateMeansSame(table, entries[..n]);
      forall i | 0 <= i < |entries| && entries[i].values.Some?
        ensures entries[i].id in table && table[entries[i].id] == entries[i].values.value
      {
        if i < n { assert entries[..n][i] == entries[i]; }
      }
    }
  }

  /**
   The same export again, over the table it left, creates nothing and removes nothing; it updates
   nothing exactly when records of one id agree.
   */
  lemma RepeatReportsNoChange<V>(old_: map<string, V>, entries: seq<Entry<V>>, keep: set<string>, replace: bool)
    requires Usable(entries) <= keep
    ensures
      var after := After(old_, entries, keep, replace);
      var t := TallyOf(after, entries, keep, replace);
      && t.created == 0 && t.removed == 0 && !Clashes(after, entries)
      && (t.updated == 0 <==> Consistent(entries))
  {
    var after := After(old_, entries, keep, replace);
    UpsertedKeys(old_, entries);
    NothingNew(after, entries);
    SyncTwiceIsOnce(old_, entries, keep, replace);
    UpsertedKeys(after, entries);
    assert Usable(entries) <= after.Keys;
    EveryRecordCounted(after, entries);
    if replace { assert Upserted(after, entries).Keys - keep == {}; }
    if Consistent(entries) {
      forall i | 0 <= i < |entries| && entries[i].values.Some?
        ensures entries[i].id in after && after[entries[i].id] == entries[i].values.value
      {
        SomeUsable(entries, i);
        var l := UsableHasLast(entries, entries[i].id);
        LastStands(old_, entries, l, entries[i].id);
        assert l == i || entries[l].values == entries[i].values;
      }
      SameTwiceIfConsistent(after, entries);
    }
    if Counted(after, entries).updated == 0 { NoUpdateMeansSame(after, entries); }
  }

  lemma {:induction false} SomeUsable<V>(entries: seq<Entry<V>>, i: nat)
    requires i < |entries| && entries[i].values.Some?
    ensures entries[i].id in Usable(entries)
  {
    var n := |entries| - 1;
    if i < n { SomeUsable(entries[..n], i); }
  }

  lemma RestrictedIsSmaller<V>(table: map<string, V>, keep: set<string>)
    ensures Restricted(table, keep).Keys == table.Keys * keep && |Restricted(table, keep)| <= |keep|
  {
    var rest := Restricted(table, keep);
    assert rest.Keys == table.Keys * keep;
    assert keep == rest.Keys + (keep - rest.Keys);
    assert |rest.Keys + (keep - rest.Keys)| == |rest.Keys| + |keep - rest.Keys|;
  }

  /**
   But the same export again is not always accepted. A first fill may be of any size; from then on
   an export is believed only if it keeps a hundred ids or more - usable ones for articles, listed
   ones for people - or has left the list empty, even when the list is its very copy.
   */
  lemma RepeatAcceptedIff<V>(old_: map<string, V>, entries: seq<Entry<V>>, keep: set<string>)
    requires Usable(entries) <= keep && Accepted(old_, entries, keep, true)
    ensures
      var after := After(old_, entries, keep, true);
      Accepted(after, entries, keep, true) <==> after == map[] || |keep| >= MINIMUM_ROWS_TO_TRUST
  {
    var after := After(old_, entries, keep, true);
    UpsertedKeys(old_, entries);
    RestrictedIsSmaller(Upserted(old_, entries), keep);
    NothingNew(after, entries);
    assert after == map[] <==> |after| == 0;
  }

  /** For articles that is: the export has no usable record, or at least a hundred. */
  lemma ArticlesRepeatAcceptedIff<V>(old_: map<string, V>, entries: seq<Entry<V>>)
    requires Accepted(old_, entries, Usable(entries), true)
    ensures
      var after := After(old_, entries, Usable(entries), true);
      Accepted(after, entries, Usable(entries), true) <==> Usable(entries) == {} || |Usable(entries)| >= MINIMUM_ROWS_TO_TRUST
  {
    var after := After(old_, entries, Usable(entries), true);
    RepeatAcceptedIff(old_, entries, Usable(entries));
    UpsertedKeys(old_, entries);
    assert after.Keys == Usable(entries);
  }

  /** For people it is not: a list of one person accepts the repeat of an export that lists a hundred. */
  lemma PeopleRepeatAcceptedIff<V>(old_: map<string, V>, entries: seq<Entry<V>>)
    requires Accepted(old_, entries, Listed(entries), true)
    ensures
      var after := After(old_, entries, Listed(entries), true);
      Accepted(after, entries, Listed(entries), true) <==> after == map[] || |Listed(entries)| >= MINIMUM_ROWS_TO_TRUST
  {
    UsableAreListed(entries);
    RepeatAcceptedIff(old_, entries, Listed(entries));
  }

  lemma SmallListRefusesItsOwnCopy()
    ensures
      var entries := [Entry("a", Some(1))];
      var after := After(map[], entries, Usable(entries), true);
      Accepted(map[], entries, Usable(entries), true) && !Accepted(after, entries, Usable(entries), true)
  {
    var entries := [Entry("a", Some(1))];
    assert Usable(entries) == {"a"};
    ArticlesRepeatAcceptedIff(map[], entries);
  }

  // No collapse

  /** One run over the articles list: the copy if it is accepted, else the list as it stood. */
  ghost function ArticlesRun<V>(table: map<string, V>, entries: seq<Entry<V>>): map<string, V> {
    if Accepted(table, entries, Usable(entries), true) then After(table, entries, Usable(entries), true) else table
  }

  ghost function ArticlesRuns<V>(table: map<string, V>, exports: seq<seq<Entry<V>>>): map<string, V> {
    if exports == [] then table else ArticlesRun(ArticlesRuns(table, exports[..|exports| - 1]), exports[|exports| - 1])
  }

  lemma OneRunKeepsAQuarter<V>(table: map<string, V>, entries: seq<Entry<V>>)
    requires |table| > 0
    ensures
      var after := ArticlesRun(table, entries);
      4 * |after| >= |table| && |after| > 0 && (after == table || |after| >= MINIMUM_ROWS_TO_TRUST)
  {
    if Accepted(table, entries, Usable(entries), true) {
      UpsertedKeys(table, entries);
      assert After(table, entries, Usable(entries), true).Keys == Usable(entries);
    }
  }

  ghost function Power4(n: nat): nat { if n == 0 then 1 else 4 * Power4(n - 1) }

  /**
   Over any run of exports, good or bad, a filled articles list is never emptied, is never smaller
   than a hundred rows once it has changed, and shrinks at most to a quarter at each step.
   */
  lemma {:induction false} ArticlesNeverCollapse<V>(table: map<string, V>, exports: seq<seq<Entry<V>>>)
    requires |table| > 0
    ensures
      var after := ArticlesRuns(table, exports);
      && |after| > 0 && (after == table || |after| >= MINIMUM_ROWS_TO_TRUST)
      && Power4(|exports|) * |after| >= |table|
  {
    if exports != [] {
      var n := |exports| - 1;
      var before := ArticlesRuns(table, exports[..n]);
      ArticlesNeverCollapse(table, exports[..n]);
      OneRunKeepsAQuarter(before, exports[n]);
      QuarterOfAQuarter(n, |table|, |before|, |ArticlesRuns(table, exports)|);
    }
  }

  lemma QuarterOfAQuarter(n: nat, first: nat, before: nat, after: nat)
    requires Power4(n) * before >= first && 4 * after >= before
    ensures Power4(n + 1) * after >= first
  {
    Scale(Power4(n), before, 4 * after);
    Regroup(Power4(n), after);
  }

  lemma Regroup(p: nat, a: nat)
    ensures (4 * p) * a == p * (4 * a)
  {
  }

  lemma Scale(k: nat, a: nat, b: nat)
    requires a <= b
    ensures k * a <= k * b
  {
  }

  /** The branch of `drop_vanished` that empties the table never removes a row: a filled list refuses an empty export first. */
  lemma EmptyingBranchIsIdle<V>(table: map<string, V>, entries: seq<Entry<V>>, keep: set<string>)
    requires Usable(entries) <= keep && keep == {}
    requires Accepted(table, entries, keep, true)
    ensures table == map[] && TallyOf(table, entries, keep, true).removed == 0
  {
    UpsertedKeys(table, entries);
    assert Upserted(table, entries).Keys == {};
  }

  // The people list can collapse: its guard counts records that name nobody

  /** Ids the export lists that leave no row: no record of theirs has a name, and no row had their id. */
  ghost function Ghosts<V>(table: map<string, V>, entries: seq<Entry<V>>): set<string> {
    Listed(entries) - Usable(entries) - table.Keys
  }

  /**
   An accepted export leaves a filled people list what the guard promises - a hundred rows and a
   quarter of itself - exactly when the guard would also accept the export without its ghosts.
   */
  lemma PersonsKeepTheFloorIff<V>(table: map<string, V>, entries: seq<Entry<V>>)
    requires |table| > 0 && Accepted(table, entries, Listed(entries), true)
    ensures
      var after := After(table, entries, Listed(entries), true);
      (|after| >= MINIMUM_ROWS_TO_TRUST && 4 * |after| >= |table|)
      <==> RemovalIsSafe(|Listed(entries) - Ghosts(table, entries)|, |table|)
  {
    UpsertedKeys(table, entries);
    UsableAreListed(entries);
    assert After(table, entries, Listed(entries), true).Keys == Listed(entries) - Ghosts(table, entries);
  }

  /** When every record names somebody there are no ghosts, and the floor holds. */
  lemma NamedExportsKeepTheFloor<V>(table: map<string, V>, entries: seq<Entry<V>>)
    requires |table| > 0 && Accepted(table, entries, Listed(entries), true)
    requires forall i :: 0 <= i < |entries| ==> entries[i].values.Some?
    ensures |After(table, entries, Listed(entries), true)| >= MINIMUM_ROWS_TO_TRUST
    ensures 4 * |After(table, entries, Listed(entries), true)| >= |table|
  {
    AllUsable(entries);
    assert Listed(entries) - Ghosts(table, entries) == Listed(entries);
    PersonsKeepTheFloorIff(table, entries);
  }

  lemma {:induction false} AllUsable<V>(entries: seq<Entry<V>>)
    requires forall i :: 0 <= i < |entries| ==> entries[i].values.Some?
    ensures Usable(entries) == Listed(entries)
  {
    if entries != [] { AllUsable(entries[..|entries| - 1]); }
  }

  /** Any export that passes the guard, names nobody and lists only ids the table does not hold empties the table. */
  lemma NamelessExportEmptiesTheList<V>(table: map<string, V>, entries: seq<Entry<V>>)
    requires RemovalIsSafe(|Listed(entries)|, |table|)
    requires forall i :: 0 <= i < |entries| ==> entries[i].values.None?
    requires Listed(entries) !! table.Keys
    ensures Accepted(table, entries, Listed(entries), true)
    ensures After(table, entries, Listed(entries), true) == map[]
  {
    NamelessWriteNothing(table, entries);
    UpsertedKeys(table, entries);
    assert After(table, entries, Listed(entries), true).Keys == {};
  }

  lemma {:induction false} NamelessWriteNothing<V>(table: map<string, V>, entries: seq<Entry<V>>)
    requires forall i :: 0 <= i < |entries| ==> entries[i].values.None?
    ensures Usable(entries) == {} && !Clashes(table, entries)
  {
    if entries != [] { NamelessWriteNothing(table, entries[..|entries| - 1]); }
  }

  // A concrete case

  function Name(length: nat): string { if length == 0 then "" else "x" + Name(length - 1) }

  lemma {:induction false} NameLength(length: nat)
    ensures |Name(length)| == length && (length > 0 ==> Name(length)[0] == 'x')
  {
    if length > 0 { NameLength(length - 1); }
  }

  /** `n` records of different ids, none with a name. */
  function Nameless(n: nat): (entries: seq<Entry<int>>)
    ensures forall i :: 0 <= i < |entries| ==> entries[i].values.None?
  {
    if n == 0 then [] else Nameless(n - 1) + [Entry(Name(n), None)]
  }

  lemma {:induction false} NamelessAreDifferent(n: nat)
    ensures |Listed(Nameless(n))| == n
    ensures forall id :: id in Listed(Nameless(n)) ==> 1 <= |id| <= n && id[0] == 'x'
  {
    if n > 0 {
      NamelessAreDifferent(n - 1);
      NameLength(n);
      assert Nameless(n)[..|Nameless(n)| - 1] == Nameless(n - 1);
    }
  }

  /** A list of one person is emptied by a hundred nameless records, although the guard is passed. */
  lemma PeopleListCanCollapse()
    ensures
      var table, entries := map["old" := 1], Nameless(100);
      Accepted(table, entries, Listed(entries), true) && After(table, entries, Listed(entries), true) == map[]
  {
    NamelessAreDifferent(100);
    NamelessExportEmptiesTheList(map["old" := 1], Nameless(100));
  }
}

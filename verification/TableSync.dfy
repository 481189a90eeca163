/**
 Copying a list into its table: upsert by external id, then - when the list is a copy of a
 view - drop what the export no longer names, all in one transaction.
 */
module TableSync {
  import opened Wrappers

  /** A record of the export: the values it would write, or none when the list cannot use it. */
  datatype Entry<V> = Entry(id: string, values: Option<V>)

  datatype Tally = Tally(created: nat, updated: nat, same: nat, errors: nat, removed: nat)

  const NO_TALLY := Tally(0, 0, 0, 0, 0)

  datatype Outcome = Synced(tally: Tally) | Untrusted(received: nat, kept: nat) | Crashed

  // The guard

  const MINIMUM_ROWS_TO_TRUST: nat := 100

  /** `removal_is_safe`: a filled list is replaced only by a hundred rows or more, and a quarter of itself or more. */
  predicate RemovalIsSafe(newRows: nat, previousRows: nat) {
    previousRows == 0 || (newRows >= MINIMUM_ROWS_TO_TRUST && 4 * newRows >= previousRows)
  }

  /** The guard in the source's own terms: nothing held, or a hundred rows and a share of 0.25. */
  lemma RemovalIsSafeIff(newRows: nat, previousRows: nat)
    ensures RemovalIsSafe(newRows, previousRows)
            <==> previousRows == 0 || !(newRows < 100 || newRows as real < previousRows as real * 0.25)
  {
  }

  // What one export makes of a table

  /** The table after the entries are written, the last of one id standing. */
  function Upserted<V>(old_: map<string, V>, entries: seq<Entry<V>>): map<string, V> {
    if entries == [] then old_
    else
      var e := entries[|entries| - 1];
      var before := Upserted(old_, entries[..|entries| - 1]);
      if e.values.None? then before else before[e.id := e.values.value]
  }

  lemma {:induction false} UpsertedKeys<V>(old_: map<string, V>, entries: seq<Entry<V>>)
    ensures Upserted(old_, entries).Keys == old_.Keys + Usable(entries)
  {
    if entries != [] { UpsertedKeys(old_, entries[..|entries| - 1]); }
  }

  /** The ids of the entries that carry values. */
  function Usable<V>(entries: seq<Entry<V>>): set<string> {
    if entries == [] then {}
    else
      var e := entries[|entries| - 1];
      Usable(entries[..|entries| - 1]) + if e.values.Some? then {e.id} else {}
  }

  function Listed<V>(entries: seq<Entry<V>>): set<string> {
    if entries == [] then {} else Listed(entries[..|entries| - 1]) + {entries[|entries| - 1].id}
  }

  /** A new id carried twice: the second row violates the unique key when the session is flushed. */
  predicate Clashes<V>(old_: map<string, V>, entries: seq<Entry<V>>) {
    entries != []
    && (Clashes(old_, entries[..|entries| - 1])
        || (entries[|entries| - 1].values.Some?
            && entries[|entries| - 1].id !in old_ && entries[|entries| - 1].id in Usable(entries[..|entries| - 1])))
  }

  /** What the loop counts; `old_` is the table as it stood before the run. */
  function Counted<V(==)>(old_: map<string, V>, entries: seq<Entry<V>>): Tally {
    if entries == [] then NO_TALLY
    else
      var e := entries[|entries| - 1];
      var t := Counted(old_, entries[..|entries| - 1]);
      if e.values.None? then t.(errors := t.errors + 1)
      else if e.id !in old_ then t.(created := t.created + 1)
      else
        UpsertedKeys(old_, entries[..|entries| - 1]);
        if Upserted(old_, entries[..|entries| - 1])[e.id] == e.values.value
        then t.(same := t.same + 1)
        else t.(updated := t.updated + 1)
  }

  function Restricted<V>(table: map<string, V>, keep: set<string>): map<string, V> {
    map id | id in table && id in keep :: table[id]
  }

  /** The table an accepted export leaves. */
  function After<V>(old_: map<string, V>, entries: seq<Entry<V>>, keep: set<string>, replace: bool): map<string, V> {
    if replace then Restricted(Upserted(old_, entries), keep) else Upserted(old_, entries)
  }

  function TallyOf<V(==)>(old_: map<string, V>, entries: seq<Entry<V>>, keep: set<string>, replace: bool): Tally {
    var t := Counted(old_, entries);
    if replace then t.(removed := |Upserted(old_, entries).Keys - keep|) else t
  }

  predicate Accepted<V>(old_: map<string, V>, entries: seq<Entry<V>>, keep: set<string>, replace: bool) {
    (replace ==> RemovalIsSafe(|keep|, |old_|)) && !Clashes(old_, entries)
  }

  // The session

  /** `working` is what the open transaction sees, `committed` what everyone else does. */
  class Session<V(==)> {
    var committed: map<string, V>
    var working: map<string, V>
    var violated: bool

    ghost predicate Ready()
      reads this
    {
      working == committed && !violated
    }

    constructor (table: map<string, V>)
      ensures Ready() && committed == table
    {
      committed, working, violated := table, table, false;
    }

    /** `session.add`: the unique key is checked only when the session is flushed. */
    method Add(id: string, values: V)
      modifies this`working, this`violated
      ensures working == old(working)[id := values]
      ensures violated == (old(violated) || id in old(working))
    {
      violated := violated || id in working;
      working := working[id := values];
    }

    method Write(id: string, values: V)
      requires id in working
      modifies this`working
      ensures working == old(working)[id := values]
    {
      working := working[id := values];
    }

    /** `drop_vanished`: with nothing to keep the whole table goes, else the rows the export does not name. */
    method DropVanished(keep: set<string>) returns (removed: nat)
      modifies this`working
      ensures working == Restricted(old(working), keep)
      ensures removed == |old(working).Keys - keep|
    {
      if keep == {} {
        removed := |working|;
        assert working.Keys - keep == working.Keys;
        working := map[];
      } else {
        var stale := set id | id in working && id !in keep;
        assert stale == working.Keys - keep;
        if stale == {} {
          assert forall id :: id in working ==> id !in stale;
          return 0;
        }
        working := working - stale;
        removed := |stale|;
      }
    }

    method Commit()
      requires !violated
      modifies this`committed
      ensures committed == working
    {
      committed := working;
    }

    method Rollback()
      modifies this
      ensures Ready() && committed == old(committed)
    {
      working, violated := committed, false;
    }
  }

  /** How the loop stands after some entries. */
  ghost predicate Standing<V>(old_: map<string, V>, entries: seq<Entry<V>>, session: Session<V>, tally: Tally)
    reads session
  {
    && session.working == Upserted(old_, entries)
    && session.violated == Clashes(old_, entries)
    && tally == Counted(old_, entries)
  }

  lemma IdsAfterEntry<V>(entries: seq<Entry<V>>, e: Entry<V>)
    ensures Usable(entries + [e]) == Usable(entries) + if e.values.Some? then {e.id} else {}
    ensures Listed(entries + [e]) == Listed(entries) + {e.id}
  {
    assert (entries + [e])[..|entries|] == entries;
  }

  lemma StandsAfterEntry<V>(old_: map<string, V>, entries: seq<Entry<V>>, e: Entry<V>)
    ensures (entries + [e])[..|entries|] == entries
    ensures Upserted(old_, entries).Keys == old_.Keys + Usable(entries)
    ensures Upserted(old_, entries + [e])
            == if e.values.None? then Upserted(old_, entries) else Upserted(old_, entries)[e.id := e.values.value]
    ensures Clashes(old_, entries + [e])
            == (Clashes(old_, entries) || (e.values.Some? && e.id !in old_ && e.id in Upserted(old_, entries)))
  {
    assert (entries + [e])[..|entries|] == entries;
    UpsertedKeys(old_, entries);
  }

  lemma StandsAfterUnusable<V>(
    old_: map<string, V>, entries: seq<Entry<V>>, id: string, session: Session<V>, tally: Tally)
    requires Standing(old_, entries, session, tally)
    ensures Standing(old_, entries + [Entry(id, None)], session, tally.(errors := tally.errors + 1))
  {
    StandsAfterEntry(old_, entries, Entry(id, None));
  }

  /** One usable entry written: added, left as it is, or overwritten. `existing` are the ids held before the run. */
  method WriteEntry<V(==)>(
    session: Session<V>, ghost old_: map<string, V>, ghost before: seq<Entry<V>>, existing: set<string>,
    id: string, values: V, tally: Tally)
    returns (next: Tally)
    requires Standing(old_, before, session, tally) && existing == old_.Keys
    modifies session`working, session`violated
    ensures Standing(old_, before + [Entry(id, Some(values))], session, next)
  {
    StandsAfterEntry(old_, before, Entry(id, Some(values)));
    if id !in existing {
      session.Add(id, values);
      next := tally.(created := tally.created + 1);
    } else if session.working[id] == values {
      next := tally.(same := tally.same + 1);
    } else {
      session.Write(id, values);
      next := tally.(updated := tally.updated + 1);
    }
  }

  /**
   The end of a run: the guard first, then the removal, then the commit. A refusal or a
   violated key raises, and leaves the committed table alone.
   */
  method Finish<V(==)>(session: Session<V>, keep: set<string>, replace: bool, previousRows: nat, tally: Tally)
    returns (outcome: Outcome)
    modifies session
    ensures replace && !RemovalIsSafe(|keep|, previousRows) <==> outcome.Untrusted?
    ensures outcome.Untrusted? ==> outcome == Untrusted(|keep|, previousRows)
    ensures outcome.Synced? <==> (replace ==> RemovalIsSafe(|keep|, previousRows)) && !old(session.violated)
    ensures outcome.Synced? ==>
              && session.Ready()
              && session.committed == (if replace then Restricted(old(session.working), keep) else old(session.working))
              && outcome.tally == if replace then tally.(removed := |old(session.working).Keys - keep|) else tally
    ensures !outcome.Synced? ==> session.committed == old(session.committed)
  {
    var counted := tally;
    if replace {
      if !RemovalIsSafe(|keep|, previousRows) { return Untrusted(|keep|, previousRows); }
      if session.violated { return Crashed; }
      var removed := session.DropVanished(keep);
      counted := tally.(removed := removed);
    }
    if session.violated { return Crashed; }
    session.Commit();
    outcome := Synced(counted);
  }
}

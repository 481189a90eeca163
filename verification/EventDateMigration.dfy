/** Clearing the event dates that were only their article's date, and putting them back. */
module EventDateMigration {
  import opened Wrappers

  type Id = int
  type Moment = int

  /** A row of `extracted_events`: the extraction run it came from, and its date or NULL. */
  datatype Event = Event(run: Id, date: Option<Moment>)

  type Events = map<Id, Event>
  type Backup = map<Id, Option<Moment>>

  /** The tables the two statements join: runs to articles, articles to their publication date or NULL. */
  datatype Sources = Sources(articleOf: map<Id, Id>, published: map<Id, Option<Moment>>) {
    /** The joined publication date; nothing when the inner joins drop the event. */
    function PublishedFor(e: Event): Option<Option<Moment>> {
      if e.run in articleOf && articleOf[e.run] in published then Some(published[articleOf[e.run]]) else None
    }

    /** `event_date IS NOT DISTINCT FROM published_at AND published_at IS NOT NULL` */
    predicate Substituted(e: Event) {
      var joined := PublishedFor(e);
      joined.Some? && joined.value.Some? && e.date == joined.value
    }
  }

  /** Dated by its article: the run's article has a publication date, and the event that very date. */
  lemma SubstitutedIs(sources: Sources, e: Event)
    ensures sources.Substituted(e)
            <==> e.date.Some? && e.run in sources.articleOf && sources.articleOf[e.run] in sources.published
                 && sources.published[sources.articleOf[e.run]] == e.date
  {
  }

  // What the statements make of the tables

  function Cleared(sources: Sources, events: Events): Events {
    map id | id in events :: if sources.Substituted(events[id]) then events[id].(date := None) else events[id]
  }

  /** The rows the INSERT adds to the backup: one already there is left. */
  function Substitutions(sources: Sources, events: Events, backup: Backup): Backup {
    map id | id in events && id !in backup && sources.Substituted(events[id]) :: events[id].date
  }

  function Saved(sources: Sources, events: Events, backup: Backup): Backup {
    backup + Substitutions(sources, events, backup)
  }

  function Restored(events: Events, backup: Backup): Events {
    map id | id in events ::
      if id in backup && events[id].date.None? then events[id].(date := backup[id]) else events[id]
  }

  /** `still_substituted` of the report. */
  function StillSubstituted(sources: Sources, events: Events): set<Id> {
    set id | id in events && sources.Substituted(events[id])
  }

  lemma NoneLeft(sources: Sources, events: Events)
    ensures StillSubstituted(sources, Cleared(sources, events)) == {}
  {
    forall id | id in events
      ensures !sources.Substituted(Cleared(sources, events)[id])
    {
    }
  }

  lemma AddedKeys(backup: Backup, inserted: Backup)
    requires inserted.Keys !! backup.Keys
    ensures (backup + inserted).Keys - backup.Keys == inserted.Keys
  {
  }

  class Tables {
    const sources: Sources
    var events: Events
    var backup: Backup

    constructor (sources: Sources, events: Events)
      ensures this.sources == sources && this.events == events && backup == map[]
    {
      this.sources, this.events, backup := sources, events, map[];
    }

    /** `upgrade` after the backup table is made. `raised`: the check at its end failed, which it never does. */
    method Upgrade() returns (saved: nat, raised: bool)
      modifies this
      ensures events == Cleared(sources, old(events))
      ensures backup == Saved(sources, old(events), old(backup))
      ensures saved == |backup.Keys - old(backup).Keys|
      ensures !raised
    {
      var inserted := Substitutions(sources, events, backup);
      saved := |inserted.Keys|;
      AddedKeys(backup, inserted);
      backup := backup + inserted;
      NoneLeft(sources, events);
      events := Cleared(sources, events);
      raised := StillSubstituted(sources, events) != {};
    }

    method Downgrade()
      modifies this
      ensures events == Restored(old(events), old(backup)) && backup == map[]
    {
      events := Restored(events, backup);
      backup := map[];
    }
  }

  // What the migration promises

  /** Down after up is the table as it was, whatever dates and NULLs it held. */
  lemma DowngradeUndoesUpgrade(sources: Sources, events: Events)
    ensures Restored(Cleared(sources, events), Saved(sources, events, map[])) == events
  {
    var back := Restored(Cleared(sources, events), Saved(sources, events, map[]));
    forall id | id in events
      ensures back[id] == events[id]
    {
    }
  }

  /** Only provable substitutions are cleared: an independent date, and an undated event, stay. */
  lemma OnlySubstitutionsCleared(sources: Sources, events: Events, id: Id)
    requires id in events
    ensures Cleared(sources, events)[id] != events[id] <==> sources.Substituted(events[id])
    ensures Cleared(sources, events)[id].run == events[id].run
    ensures Cleared(sources, events)[id].date == None || Cleared(sources, events)[id].date == events[id].date
    ensures Cleared(sources, events).Keys == events.Keys
    ensures id in Saved(sources, events, map[]) <==> sources.Substituted(events[id])
  {
  }

  /** The backup keeps what it held, and takes of each cleared event it did not hold the date it had. */
  lemma BackupGrows(sources: Sources, events: Events, backup: Backup)
    ensures
      var saved := Saved(sources, events, backup);
      && (forall id :: id in backup ==> id in saved && saved[id] == backup[id])
      && (forall id :: id in saved && id !in backup ==> id in events && saved[id] == events[id].date)
      && (forall id :: id in events && Cleared(sources, events)[id] != events[id] ==> id in saved)
      && (forall id :: id in saved && id !in backup ==> Cleared(sources, events)[id] != events[id])
  {
  }

  /** A second clearing finds nothing: neither the events nor the backup change. */
  lemma ClearingTwiceIsOnce(sources: Sources, events: Events)
    ensures Cleared(sources, Cleared(sources, events)) == Cleared(sources, events)
    ensures Saved(sources, Cleared(sources, events), Saved(sources, events, map[])) == Saved(sources, events, map[])
  {
    var once, saved := Cleared(sources, events), Saved(sources, events, map[]);
    assert forall id :: id in once ==> !sources.Substituted(once[id]);
    assert Saved(sources, once, saved).Keys == saved.Keys;
  }

  /**
   Whatever happened to the events between - rows added, dropped, dated anew - the downgrade
   changes only undated events that this migration cleared, and gives each the date it cleared.
   */
  lemma DowngradeRestoresOnlyTheCleared(sources: Sources, events: Events, later: Events, id: Id)
    requires id in later
    ensures
      var back := Restored(later, Saved(sources, events, map[]));
      if id in events && sources.Substituted(events[id]) && later[id].date.None?
      then back[id] == later[id].(date := events[id].date)
      else back[id] == later[id]
  {
  }
}

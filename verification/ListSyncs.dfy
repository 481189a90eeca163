/** The two lists that are copies of a view: `sync_articles` and `sync_known_persons`. */
module ListSyncs {
  import opened Wrappers
  import opened TableSync
  import opened Digits
  import opened ArticleKeys
  import SyncLaws

  /**
   The end of a run over all the records: `Finish`, and after a refusal the rollback of the
   caller's transaction, which leaves the session on the committed table.
   */
  method Conclude<V(==)>(
    session: Session<V>, ghost old_: map<string, V>, ghost entries: seq<Entry<V>>, keep: set<string>, replace: bool,
    previousRows: nat, tally: Tally)
    returns (outcome: Outcome)
    requires session.committed == old_ && Standing(old_, entries, session, tally)
    requires previousRows == if replace then |old_| else 0
    modifies session
    ensures session.Ready()
    ensures outcome.Synced? <==> Accepted(old_, entries, keep, replace)
    ensures outcome.Synced? ==> session.committed == After(old_, entries, keep, replace)
                                && outcome.tally == TallyOf(old_, entries, keep, replace)
    ensures !outcome.Synced? ==> session.committed == old_
    ensures outcome.Untrusted? <==> replace && !RemovalIsSafe(|keep|, |old_|)
  {
    outcome := Finish(session, keep, replace, previousRows, tally);
    if !outcome.Synced? { session.Rollback(); }
  }

  // Articles

  datatype ArticleRecord = ArticleRecord(id: string, text: string)
  datatype ArticleRow = ArticleRow(text: string, key: string, active: bool)

  /** What a record of the articles list writes: nothing without a text, or without a number in it. */
  function ArticleEntry(record: ArticleRecord, keyOf: string -> string): Entry<ArticleRow> {
    var key := keyOf(record.text);
    Entry(record.id, if record.text == [] || key == [] then None else Some(ArticleRow(record.text, key, true)))
  }

  function ArticleEntries(records: seq<ArticleRecord>, keyOf: string -> string): (entries: seq<Entry<ArticleRow>>)
    ensures |entries| == |records|
  {
    seq(|records|, i requires 0 <= i < |records| => ArticleEntry(records[i], keyOf))
  }

  /** The last record of an id whose text holds a digit. */
  ghost predicate LastNumbered(records: seq<ArticleRecord>, i: nat, id: string) {
    && i < |records| && records[i].id == id && !NoDigits(records[i].text)
    && forall j :: i < j < |records| && records[j].id == id ==> NoDigits(records[j].text)
  }

  /**
   The articles list as an export leaves it: an id is held if a record of it has a text with a digit -
   or, without `replace`, if it was held - the last such record makes the row, and the others are errors.
   */
  ghost predicate ArticlesCopied(
    records: seq<ArticleRecord>, old_: map<string, ArticleRow>, replace: bool, after: map<string, ArticleRow>, errors: nat)
  {
    && (forall id :: id in after <==> (exists i: nat :: LastNumbered(records, i, id)) || (!replace && id in old_))
    && (forall id, i: nat :: LastNumbered(records, i, id) ==>
          id in after && after[id] == ArticleRow(records[i].text, ArticleKey(records[i].text), true))
    && (forall id :: id in after && !(exists i: nat :: LastNumbered(records, i, id)) ==> id in old_ && after[id] == old_[id])
    && errors == |set i | 0 <= i < |records| && NoDigits(records[i].text)|
  }

  lemma ArticlesAreCopied(records: seq<ArticleRecord>, old_: map<string, ArticleRow>, replace: bool)
    ensures
      var entries := ArticleEntries(records, ArticleKey);
      ArticlesCopied(records, old_, replace, After(old_, entries, Usable(entries), replace), Counted(old_, entries).errors)
  {
    var entries := ArticleEntries(records, ArticleKey);
    var after := After(old_, entries, Usable(entries), replace);
    forall i | 0 <= i < |records|
      ensures entries[i].values.None? <==> NoDigits(records[i].text)
    {
      KeyIsEmptyIff(records[i].text);
    }
    assert (set i | 0 <= i < |entries| && entries[i].values.None?) == set i | 0 <= i < |records| && NoDigits(records[i].text);
    SyncLaws.ErrorsAreUnusable(old_, entries);
    forall id, i: nat
      ensures LastNumbered(records, i, id) <==> SyncLaws.IsLast(entries, i, id)
    {
    }
    forall id
      ensures id in after <==> (exists i: nat :: LastNumbered(records, i, id)) || (!replace && id in old_)
      ensures forall i: nat :: LastNumbered(records, i, id) ==>
                id in after && after[id] == ArticleRow(records[i].text, ArticleKey(records[i].text), true)
      ensures id in after && !(exists i: nat :: LastNumbered(records, i, id)) ==> id in old_ && after[id] == old_[id]
    {
      SyncLaws.TableAfter(old_, entries, Usable(entries), replace, id);
    }
  }

  /** `fault`: the record at which the database or the code raises, if any; the caller rolls back. */
  method SyncArticles(session: Session<ArticleRow>, records: seq<ArticleRecord>, replace: bool, fault: Option<nat>)
    returns (outcome: Outcome)
    requires session.Ready()
    modifies session
    ensures session.Ready()
    ensures
      var old_, entries := old(session.committed), ArticleEntries(records, ArticleKey);
      var raised := fault.Some? && fault.value < |records|;
      && (outcome.Synced? <==> !raised && Accepted(old_, entries, Usable(entries), replace))
      && (outcome.Synced? ==> session.committed == After(old_, entries, Usable(entries), replace)
                              && outcome.tally == TallyOf(old_, entries, Usable(entries), replace))
      && (!outcome.Synced? ==> session.committed == old_)
      && (outcome.Untrusted? <==> !raised && replace && !RemovalIsSafe(|Usable(entries)|, |old_|))
    ensures outcome.Synced? ==>
              ArticlesCopied(records, old(session.committed), replace, session.committed, outcome.tally.errors)
  {
    ArticlesAreCopied(records, session.committed, replace);
    outcome := SyncKeyed(session, records, ArticleKey, replace, fault);
  }

  /** The same for any reading of a key from a text. */
  method SyncKeyed(
    session: Session<ArticleRow>, records: seq<ArticleRecord>, keyOf: string -> string, replace: bool, fault: Option<nat>)
    returns (outcome: Outcome)
    requires session.Ready()
    modifies session
    ensures session.Ready()
    ensures
      var old_, entries := old(session.committed), ArticleEntries(records, keyOf);
      var raised := fault.Some? && fault.value < |records|;
      && (outcome.Synced? <==> !raised && Accepted(old_, entries, Usable(entries), replace))
      && (outcome.Synced? ==> session.committed == After(old_, entries, Usable(entries), replace)
                              && outcome.tally == TallyOf(old_, entries, Usable(entries), replace))
      && (!outcome.Synced? ==> session.committed == old_)
      && (outcome.Untrusted? <==> !raised && replace && !RemovalIsSafe(|Usable(entries)|, |old_|))
  {
    var previousRows := if replace then |session.working| else 0;
    var existing := session.working.Keys;
    var tally := NO_TALLY;
    var keep: set<string> := {};
    ghost var old_, entries := session.committed, ArticleEntries(records, keyOf);
    for i := 0 to |records|
      invariant session.committed == old_ && existing == old_.Keys
      invariant Standing(old_, entries[..i], session, tally)
      invariant keep == Usable(entries[..i])
      invariant fault.Some? ==> i <= fault.value
    {
      if fault == Some(i) {
        session.Rollback();
        return Crashed;
      }
      var record := records[i];
      var key := keyOf(record.text);
      assert entries[..i + 1] == entries[..i] + [ArticleEntry(record, keyOf)];
      IdsAfterEntry(entries[..i], ArticleEntry(record, keyOf));
      if record.text == [] || key == [] {
        StandsAfterUnusable(old_, entries[..i], record.id, session, tally);
        tally := tally.(errors := tally.errors + 1);
      } else {
        tally := WriteEntry(session, old_, entries[..i], existing, record.id, ArticleRow(record.text, key, true), tally);
        keep := keep + {record.id};
      }
    }
    assert entries[..|records|] == entries;
    outcome := Conclude(session, old_, entries, keep, replace, previousRows, tally);
  }

  // Known persons

  /** `Row`: every column but the name's own, as read from one record. */
  datatype PersonRecord<Row> = PersonRecord(id: string, name: string, columns: Row)

  function PersonEntry<Row>(record: PersonRecord<Row>): Entry<(string, Row)> {
    Entry(record.id, if record.name == [] then None else Some((record.name, record.columns)))
  }

  function PersonEntries<Row>(records: seq<PersonRecord<Row>>): (entries: seq<Entry<(string, Row)>>)
    ensures |entries| == |records|
  {
    seq(|records|, i requires 0 <= i < |records| => PersonEntry(records[i]))
  }

  /** The last record of an id that names somebody. */
  ghost predicate LastNamed<Row(!new)>(records: seq<PersonRecord<Row>>, i: nat, id: string) {
    && i < |records| && records[i].id == id && records[i].name != []
    && forall j :: i < j < |records| && records[j].id == id ==> records[j].name == []
  }

  /**
   The people list as an export leaves it: the last named record of an id makes its row; the other
   rows held stay as they were, with `replace` those alone that the export lists; the nameless are errors.
   */
  ghost predicate PersonsCopied<Row(!new)>(
    records: seq<PersonRecord<Row>>, old_: map<string, (string, Row)>, replace: bool, after: map<string, (string, Row)>,
    errors: nat)
  {
    && (forall id :: id in after <==> (exists i: nat :: LastNamed(records, i, id))
                                      || (id in old_ && (replace ==> exists i :: 0 <= i < |records| && records[i].id == id)))
    && (forall id, i: nat :: LastNamed(records, i, id) ==> id in after && after[id] == (records[i].name, records[i].columns))
    && (forall id :: id in after && !(exists i: nat :: LastNamed(records, i, id)) ==> id in old_ && after[id] == old_[id])
    && errors == |set i | 0 <= i < |records| && records[i].name == []|
  }

  lemma PersonsAreCopied<Row(!new)>(records: seq<PersonRecord<Row>>, old_: map<string, (string, Row)>, replace: bool)
    ensures
      var entries := PersonEntries(records);
      PersonsCopied(records, old_, replace, After(old_, entries, Listed(entries), replace), Counted(old_, entries).errors)
  {
    var entries := PersonEntries(records);
    var after := After(old_, entries, Listed(entries), replace);
    assert (set i | 0 <= i < |entries| && entries[i].values.None?) == set i | 0 <= i < |records| && records[i].name == [];
    SyncLaws.ErrorsAreUnusable(old_, entries);
    SyncLaws.UsableAreListed(entries);
    assert forall j :: 0 <= j < |records| ==> entries[j] == PersonEntry(records[j]);
    forall id, i: nat
      ensures LastNamed(records, i, id) <==> SyncLaws.IsLast(entries, i, id)
    {
    }
    forall id
      ensures id in after <==> (exists i: nat :: LastNamed(records, i, id))
                               || (id in old_ && (replace ==> exists i :: 0 <= i < |records| && records[i].id == id))
      ensures forall i: nat :: LastNamed(records, i, id) ==> id in after && after[id] == (records[i].name, records[i].columns)
      ensures id in after && !(exists i: nat :: LastNamed(records, i, id)) ==> id in old_ && after[id] == old_[id]
    {
      SyncLaws.TableAfter(old_, entries, Listed(entries), replace, id);
      SyncLaws.ListedAre(entries, id);
    }
  }

  /** The same, but every id the export lists is kept, named or not, and the guard counts them all. */
  method SyncNamed<Row(==)>(
    session: Session<(string, Row)>, records: seq<PersonRecord<Row>>, replace: bool, fault: Option<nat>)
    returns (outcome: Outcome)
    requires session.Ready()
    modifies session
    ensures session.Ready()
    ensures
      var old_, entries := old(session.committed), PersonEntries(records);
      var raised := fault.Some? && fault.value < |records|;
      && (outcome.Synced? <==> !raised && Accepted(old_, entries, Listed(entries), replace))
      && (outcome.Synced? ==> session.committed == After(old_, entries, Listed(entries), replace)
                              && outcome.tally == TallyOf(old_, entries, Listed(entries), replace))
      && (!outcome.Synced? ==> session.committed == old_)
      && (outcome.Untrusted? <==> !raised && replace && !RemovalIsSafe(|Listed(entries)|, |old_|))
  {
    var previousRows := if replace then |session.working| else 0;
    var existing := session.working.Keys;
    var tally := NO_TALLY;
    var keep: set<string> := {};
    ghost var old_, entries := session.committed, PersonEntries(records);
    for i := 0 to |records|
      invariant session.committed == old_ && existing == old_.Keys
      invariant Standing(old_, entries[..i], session, tally)
      invariant keep == Listed(entries[..i])
      invariant fault.Some? ==> i <= fault.value
    {
      if fault == Some(i) {
        session.Rollback();
        return Crashed;
      }
      var record := records[i];
      assert entries[..i + 1] == entries[..i] + [PersonEntry(record)];
      IdsAfterEntry(entries[..i], PersonEntry(record));
      keep := keep + {record.id};
      if record.name == [] {
        StandsAfterUnusable(old_, entries[..i], record.id, session, tally);
        tally := tally.(errors := tally.errors + 1);
      } else {
        tally := WriteEntry(session, old_, entries[..i], existing, record.id, (record.name, record.columns), tally);
      }
    }
    assert entries[..|records|] == entries;
    outcome := Conclude(session, old_, entries, keep, replace, previousRows, tally);
  }

  /** And what that makes of the list, record by record. */
  method SyncKnownPersons<Row(==,!new)>(
    session: Session<(string, Row)>, records: seq<PersonRecord<Row>>, replace: bool, fault: Option<nat>)
    returns (outcome: Outcome)
    requires session.Ready()
    modifies session
    ensures session.Ready()
    ensures
      var old_, entries := old(session.committed), PersonEntries(records);
      var raised := fault.Some? && fault.value < |records|;
      && (outcome.Synced? <==> !raised && Accepted(old_, entries, Listed(entries), replace))
      && (outcome.Synced? ==> session.committed == After(old_, entries, Listed(entries), replace)
                              && outcome.tally == TallyOf(old_, entries, Listed(entries), replace))
      && (!outcome.Synced? ==> session.committed == old_)
      && (outcome.Untrusted? <==> !raised && replace && !RemovalIsSafe(|Listed(entries)|, |old_|))
    ensures outcome.Synced? ==>
              PersonsCopied(records, old(session.committed), replace, session.committed, outcome.tally.errors)
  {
    PersonsAreCopied(records, session.committed, replace);
    outcome := SyncNamed(session, records, replace, fault);
  }
}

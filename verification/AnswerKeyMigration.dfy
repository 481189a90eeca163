/** The model in the key of the cached answers: the upgrade widens the keys, the downgrade keeps one answer a question. */
module AnswerKeyMigration {
  import opened Texts

  /** An answer: the columns of its question, the model, when it was written. The rest of the row goes with it. */
  datatype Answer = Answer(question: seq<string>, model: string, createdAt: int, text: string)

  type Table = set<Answer>

  /** The key after the upgrade: question and model. */
  ghost predicate KeyedByModel(table: Table) {
    forall a, b :: a in table && b in table && a.question == b.question && a.model == b.model ==> a == b
  }

  /** The key before the upgrade: the question alone. */
  ghost predicate KeyedByQuestion(table: Table) {
    forall a, b :: a in table && b in table && a.question == b.question ==> a == b
  }

  /** `(newer.created_at, newer.model) > (older.created_at, older.model)` */
  predicate Newer(a: Answer, b: Answer) {
    a.createdAt > b.createdAt || (a.createdAt == b.createdAt && !LexLe(a.model, b.model))
  }

  /** The later answer is newer, whatever the models. */
  lemma LaterIsNewer(a: Answer, b: Answer)
    ensures a.createdAt > b.createdAt ==> Newer(a, b) && !Newer(b, a)
  {
  }

  /** Of two answers of one moment the first difference of the models decides; a longer name beats its own start. */
  lemma GreaterModelIsNewer(a: Answer, b: Answer, p: string, c: char, s: string, d: char, t: string)
    requires a.createdAt == b.createdAt
    ensures a.model == p + [d] + t && b.model == p + [c] + s && c < d ==> Newer(a, b) && !Newer(b, a)
    ensures a.model == b.model + t && t != [] ==> Newer(a, b) && !Newer(b, a)
    ensures a.model == b.model ==> !Newer(a, b)
  {
    if c < d { FirstDifference(p, c, s, d, t); }
    ShorterFirst(b.model, t);
    LexTotal(a.model, a.model);
  }

  /** The rows the DELETE leaves. */
  ghost function Newest(table: Table): Table {
    set a | a in table && forall b :: b in table && b.question == a.question ==> !Newer(b, a)
  }

  /** Of the rows with one question, one that no other is newer than. */
  lemma {:induction false} SomeNewest(table: Table, a: Answer) returns (best: Answer)
    requires a in table
    ensures best in table && best.question == a.question
    ensures forall b :: b in table && b.question == a.question ==> !Newer(b, best)
    decreases table
  {
    var newer := set b | b in table && b.question == a.question && Newer(b, a);
    if newer == {} {
      best := a;
      forall b | b in table && b.question == a.question
        ensures !Newer(b, a)
      {
        assert b !in newer;
      }
    } else {
      assert !Newer(a, a) by { LexTotal(a.model, a.model); }
      var b :| b in newer;
      best := SomeNewest(newer, b);
      forall c | c in table && c.question == a.question
        ensures !Newer(c, best)
      {
        if Newer(c, best) { NewerTransitive(c, best, a); }
      }
    }
  }

  lemma NewerTransitive(a: Answer, b: Answer, c: Answer)
    requires Newer(a, b) && Newer(b, c)
    ensures Newer(a, c)
  {
    if a.createdAt == b.createdAt == c.createdAt && LexLe(a.model, c.model) {
      LexTotal(b.model, c.model);
      LexTransitive(a.model, c.model, b.model);
    }
  }

  lemma OneIsNewer(a: Answer, b: Answer)
    requires a.model != b.model
    ensures Newer(a, b) || Newer(b, a)
  {
    if LexLe(a.model, b.model) && LexLe(b.model, a.model) { LexAntisymmetric(a.model, b.model); }
  }

  lemma NewestBeats(table: Table, a: Answer, b: Answer)
    requires KeyedByModel(table)
    requires a in table && b in Newest(table) && a.question == b.question && a != b
    ensures Newer(b, a) && a !in Newest(table)
  {
    OneIsNewer(a, b);
  }

  ghost predicate Answered(table: Table, question: seq<string>) {
    exists a :: a in table && a.question == question
  }

  /**
   The downgrade leaves exactly one row for every question that had any, and it is the greatest
   by (created_at, model); so the narrow key it then makes always holds.
   */
  lemma DowngradeKeepsTheNewest(table: Table)
    requires KeyedByModel(table)
    ensures KeyedByQuestion(Newest(table)) && Newest(table) <= table
    ensures forall question :: Answered(table, question) <==> Answered(Newest(table), question)
    ensures forall a, b :: a in table && b in Newest(table) && a.question == b.question && a != b ==> Newer(b, a)
  {
    forall question
      ensures Answered(table, question) <==> Answered(Newest(table), question)
    {
      if a :| a in table && a.question == question {
        var best := SomeNewest(table, a);
        assert best in Newest(table);
      }
    }
    forall a, b | a in table && b in Newest(table) && a.question == b.question && a != b
      ensures Newer(b, a) && a !in Newest(table)
    {
      NewestBeats(table, a, b);
    }
  }

  /** A table keyed by the question satisfies the wider key, and comes back from the downgrade as it was. */
  lemma DowngradeUndoesUpgrade(table: Table)
    requires KeyedByQuestion(table)
    ensures KeyedByModel(table) && Newest(table) == table
  {
    forall a | a in table
      ensures a in Newest(table)
    {
      LexTotal(a.model, a.model);
    }
  }

  /** `_KEYS`: the tables, each by its name. */
  class Answers {
    var tables: map<string, Table>

    constructor (tables: map<string, Table>)
      ensures this.tables == tables
    {
      this.tables := tables;
    }

    /** The loop of `downgrade`, over the tables in any order. */
    method Downgrade(names: seq<string>)
      requires forall i :: 0 <= i < |names| ==> names[i] in tables
      requires forall i, j :: 0 <= i < j < |names| ==> names[i] != names[j]
      modifies this
      ensures tables.Keys == old(tables.Keys)
      ensures forall name :: name in tables ==>
                tables[name] == if name in names then Newest(old(tables)[name]) else old(tables)[name]
    {
      for i := 0 to |names|
        invariant tables.Keys == old(tables.Keys)
        invariant forall j :: 0 <= j < i ==> tables[names[j]] == Newest(old(tables)[names[j]])
        invariant forall name :: name in tables && name !in names[..i] ==> tables[name] == old(tables)[name]
      {
        var table := tables[names[i]];
        assert names[i] !in names[..i];
        var kept := DeleteOlder(table);
        tables := tables[names[i] := kept];
      }
      forall name | name in tables
        ensures tables[name] == if name in names then Newest(old(tables)[name]) else old(tables)[name]
      {
        assert names[..|names|] == names;
      }
    }

    /** `DELETE ... USING ...`: every row a newer one of its question outdoes. */
    static method DeleteOlder(table: Table) returns (kept: Table)
      ensures kept == Newest(table)
    {
      kept := set a | a in table && forall b | b in table :: !(b.question == a.question && Newer(b, a));
    }
  }
}

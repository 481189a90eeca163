/** The bulk extraction over `run_chunks`: the counts of a chunk, and their merge in any order of the chunks. */
module Extraction {
  import opened Wrappers
  import opened Batches

  /** What extracting one article comes to. */
  datatype Saved = Skipped | Stored(mentions: nat, events: nat) | Refused(message: string)

  datatype Failure = Failure(article: int, message: string)

  datatype Batch = Batch(
    processed: nat, skipped: nat, failed: nat, mentions: nat, events: nat, failures: seq<Failure>)

  const EMPTY_BATCH := Batch(0, 0, 0, 0, 0, [])

  function Join(a: Batch, b: Batch): Batch {
    Batch(a.processed + b.processed, a.skipped + b.skipped, a.failed + b.failed, a.mentions + b.mentions,
          a.events + b.events, a.failures + b.failures)
  }

  function OfArticle(article: int, saved: Saved): Batch {
    match saved
    case Skipped => EMPTY_BATCH.(skipped := 1)
    case Stored(mentions, events) => EMPTY_BATCH.(processed := 1, mentions := mentions, events := events)
    case Refused(message) => EMPTY_BATCH.(failed := 1, failures := [Failure(article, message)])
  }

  /** One sequential pass. */
  ghost function Pass(articles: seq<int>, save: int -> Saved): Batch {
    if articles == [] then EMPTY_BATCH
    else
      var last := articles[|articles| - 1];
      Join(Pass(articles[..|articles| - 1], save), OfArticle(last, save(last)))
  }

  lemma PassEnd(articles: seq<int>, i: nat, save: int -> Saved)
    requires i < |articles|
    ensures Pass(articles[..i + 1], save) == Join(Pass(articles[..i], save), OfArticle(articles[i], save(articles[i])))
  {
    assert articles[..i + 1][..i] == articles[..i];
  }

  lemma JoinArticle(b: Batch, article: int, saved: Saved)
    ensures saved.Skipped? ==> Join(b, OfArticle(article, saved)) == b.(skipped := b.skipped + 1)
    ensures saved.Stored? ==>
              Join(b, OfArticle(article, saved))
              == b.(processed := b.processed + 1, mentions := b.mentions + saved.mentions, events := b.events + saved.events)
    ensures saved.Refused? ==>
              Join(b, OfArticle(article, saved))
              == b.(failed := b.failed + 1, failures := b.failures + [Failure(article, saved.message)])
  {
    assert b.failures + [] == b.failures;
  }

  method ExtractArticles(articles: seq<int>, save: int -> Saved) returns (batch: Batch)
    ensures batch == Pass(articles, save)
  {
    batch := EMPTY_BATCH;
    for i := 0 to |articles|
      invariant batch == Pass(articles[..i], save)
    {
      PassEnd(articles, i, save);
      var saved := save(articles[i]);
      JoinArticle(batch, articles[i], saved);
      match saved
      case Skipped =>
        batch := batch.(skipped := batch.skipped + 1);
      case Stored(mentions, events) =>
        batch := batch.(processed := batch.processed + 1, mentions := batch.mentions + mentions,
                        events := batch.events + events);
      case Refused(message) =>
        batch := batch.(failed := batch.failed + 1, failures := batch.failures + [Failure(articles[i], message)]);
    }
    assert articles[..|articles|] == articles;
  }

  ghost function Merged(batches: seq<Batch>): Batch {
    if batches == [] then EMPTY_BATCH else Join(Merged(batches[..|batches| - 1]), batches[|batches| - 1])
  }

  method MergeExtractionResults(batches: seq<Batch>) returns (total: Batch)
    ensures total == Merged(batches)
  {
    total := EMPTY_BATCH;
    for i := 0 to |batches|
      invariant total == Merged(batches[..i])
    {
      assert batches[..i + 1][..i] == batches[..i];
      total := Batch(
        total.processed + batches[i].processed, total.skipped + batches[i].skipped, total.failed + batches[i].failed,
        total.mentions + batches[i].mentions, total.events + batches[i].events, total.failures + batches[i].failures);
    }
    assert batches[..|batches|] == batches;
  }

  /** Every article is counted once, and one line stands for each that failed. */
  lemma {:induction false} EveryArticleCounted(articles: seq<int>, save: int -> Saved)
    ensures
      var b := Pass(articles, save);
      b.processed + b.skipped + b.failed == |articles| && |b.failures| == b.failed
    ensures forall f :: f in Pass(articles, save).failures ==>
              f.article in articles && save(f.article) == Refused(f.message)
  {
    if articles != [] {
      var n := |articles| - 1;
      EveryArticleCounted(articles[..n], save);
      assert articles == articles[..n] + [articles[n]];
    }
  }

  lemma SumEnd(s: seq<nat>, n: nat)
    ensures Sum(s + [n]) == Sum(s) + n
  {
    assert (s + [n])[..|s|] == s;
  }

  /** The places of the articles that end so. */
  ghost function PlacesOf(articles: seq<int>, save: int -> Saved, how: Saved -> bool): set<nat> {
    set i | 0 <= i < |articles| && how(save(articles[i]))
  }

  lemma PlacesOfNext(articles: seq<int>, save: int -> Saved, how: Saved -> bool)
    requires articles != []
    ensures
      var n := |articles| - 1;
      |PlacesOf(articles, save, how)| == |PlacesOf(articles[..n], save, how)| + if how(save(articles[n])) then 1 else 0
  {
    var n := |articles| - 1;
    assert PlacesOf(articles, save, how) == PlacesOf(articles[..n], save, how) + if how(save(articles[n])) then {n} else {};
  }

  /** What a pass counts: the articles of each kind. */
  lemma {:induction false} PassCounts(articles: seq<int>, save: int -> Saved)
    ensures
      var b := Pass(articles, save);
      && b.processed == |PlacesOf(articles, save, (s: Saved) => s.Stored?)|
      && b.skipped == |PlacesOf(articles, save, (s: Saved) => s.Skipped?)|
      && b.failed == |PlacesOf(articles, save, (s: Saved) => s.Refused?)|
  {
    if articles != [] {
      PassCounts(articles[..|articles| - 1], save);
      PlacesOfNext(articles, save, (s: Saved) => s.Stored?);
      PlacesOfNext(articles, save, (s: Saved) => s.Skipped?);
      PlacesOfNext(articles, save, (s: Saved) => s.Refused?);
    }
  }

  ghost function SumOf(articles: seq<int>, count: int -> nat): nat {
    Sum(seq(|articles|, i requires 0 <= i < |articles| => count(articles[i])))
  }

  lemma SumOfNext(articles: seq<int>, count: int -> nat)
    requires articles != []
    ensures SumOf(articles, count) == SumOf(articles[..|articles| - 1], count) + count(articles[|articles| - 1])
  {
    var n := |articles| - 1;
    SumEnd(seq(n, i requires 0 <= i < n => count(articles[..n][i])), count(articles[n]));
    assert seq(n + 1, i requires 0 <= i < n + 1 => count(articles[i]))
        == seq(n, i requires 0 <= i < n => count(articles[..n][i])) + [count(articles[n])];
  }

  /** The mentions and events are those of the articles stored. */
  lemma {:induction false} PassSums(articles: seq<int>, save: int -> Saved)
    ensures Pass(articles, save).mentions == SumOf(articles, (a: int) => if save(a).Stored? then save(a).mentions else 0)
    ensures Pass(articles, save).events == SumOf(articles, (a: int) => if save(a).Stored? then save(a).events else 0)
  {
    if articles != [] {
      PassSums(articles[..|articles| - 1], save);
      SumOfNext(articles, (a: int) => if save(a).Stored? then save(a).mentions else 0);
      SumOfNext(articles, (a: int) => if save(a).Stored? then save(a).events else 0);
    }
  }

  /** The failures come in the order of their articles. */
  lemma FailuresInOrder(a: seq<int>, article: int, b: seq<int>, save: int -> Saved)
    requires save(article).Refused?
    ensures Pass(a + [article] + b, save).failures
            == Pass(a, save).failures + [Failure(article, save(article).message)] + Pass(b, save).failures
  {
    PassJoins(a + [article], b, save);
    assert (a + [article])[..|a|] == a;
  }

  lemma {:induction false} PassJoins(a: seq<int>, b: seq<int>, save: int -> Saved)
    ensures Pass(a + b, save) == Join(Pass(a, save), Pass(b, save))
  {
    if b == [] {
      assert a + b == a;
      assert Pass(a, save).failures + [] == Pass(a, save).failures;
    } else {
      var n := |b| - 1;
      var last := OfArticle(b[n], save(b[n]));
      PassJoins(a, b[..n], save);
      assert Pass(a + b, save) == Join(Pass(a + b[..n], save), last) by {
        assert (a + b)[..|a + b| - 1] == a + b[..n];
      }
      JoinAssociates(Pass(a, save), Pass(b[..n], save), last);
    }
  }

  lemma JoinAssociates(a: Batch, b: Batch, c: Batch)
    ensures Join(Join(a, b), c) == Join(a, Join(b, c))
  {
    assert a.failures + b.failures + c.failures == a.failures + (b.failures + c.failures);
  }

  // The totals, whatever the order

  /** The counts, and the failures with their order forgotten. */
  datatype Totals = Totals(
    processed: nat, skipped: nat, failed: nat, mentions: nat, events: nat, failures: multiset<Failure>)

  const NO_TOTALS := Totals(0, 0, 0, 0, 0, multiset{})

  function Plus(a: Totals, b: Totals): Totals {
    Totals(a.processed + b.processed, a.skipped + b.skipped, a.failed + b.failed, a.mentions + b.mentions,
           a.events + b.events, a.failures + b.failures)
  }

  function TotalsOf(b: Batch): Totals {
    Totals(b.processed, b.skipped, b.failed, b.mentions, b.events, multiset(b.failures))
  }

  lemma TotalsAddUp()
    ensures AddsUp(Plus, NO_TOTALS)
  {
    forall a, b
      ensures Plus(a, b) == Plus(b, a)
    {
      assert a.failures + b.failures == b.failures + a.failures;
    }
    forall a, b, c
      ensures Plus(Plus(a, b), c) == Plus(a, Plus(b, c))
    {
      assert (a.failures + b.failures) + c.failures == a.failures + (b.failures + c.failures);
    }
    forall a
      ensures Plus(NO_TOTALS, a) == a
    {
      assert multiset{} + a.failures == a.failures;
    }
  }

  /** The work `run_chunks` is given: a chunk raises when reading one of its articles does. */
  ghost function Work(save: int -> Saved, raises: seq<int> -> bool): seq<int> -> Option<Batch> {
    (chunk: seq<int>) => if raises(chunk) then None else Some(Pass(chunk, save))
  }

  ghost function ChunkTotals(chunks: seq<seq<int>>, save: int -> Saved): nat -> Totals {
    (i: nat) => if i < |chunks| then TotalsOf(Pass(chunks[i], save)) else NO_TOTALS
  }

  lemma JoinIsPlus(a: Batch, b: Batch)
    ensures TotalsOf(Join(a, b)) == Plus(TotalsOf(a), TotalsOf(b))
  {
    assert multiset(a.failures + b.failures) == multiset(a.failures) + multiset(b.failures);
  }

  lemma GivenEnd(order: seq<nat>, chunks: seq<seq<int>>, save: int -> Saved, raises: seq<int> -> bool)
    requires order != [] && forall i :: 0 <= i < |order| ==> order[i] < |chunks|
    requires !raises(chunks[order[|order| - 1]])
    ensures Merged(Given(order, chunks, Work(save, raises)))
            == Join(Merged(Given(order[..|order| - 1], chunks, Work(save, raises))), Pass(chunks[order[|order| - 1]], save))
  {
    var last := chunks[order[|order| - 1]];
    assert Work(save, raises)(last) == Some(Pass(last, save));
    MergedEnd(Given(order[..|order| - 1], chunks, Work(save, raises)), Pass(last, save));
  }

  lemma MergedEnd(batches: seq<Batch>, last: Batch)
    ensures Merged(batches + [last]) == Join(Merged(batches), last)
  {
    assert (batches + [last])[..|batches|] == batches;
  }

  lemma {:induction false} MergedIsTotal(
    order: seq<nat>, chunks: seq<seq<int>>, save: int -> Saved, raises: seq<int> -> bool)
    requires forall i :: 0 <= i < |order| ==> order[i] < |chunks|
    requires forall i :: 0 <= i < |chunks| ==> !raises(chunks[i])
    ensures TotalsOf(Merged(Given(order, chunks, Work(save, raises))))
            == Total(order, ChunkTotals(chunks, save), Plus, NO_TOTALS)
  {
    if order != [] {
      var n := |order| - 1;
      MergedIsTotal(order[..n], chunks, save, raises);
      GivenEnd(order, chunks, save, raises);
      JoinIsPlus(Merged(Given(order[..n], chunks, Work(save, raises))), Pass(chunks[order[n]], save));
    }
  }

  lemma OneMoreInOrder(chunks: seq<seq<int>>, n: nat, save: int -> Saved, raises: seq<int> -> bool)
    requires n < |chunks| && !raises(chunks[n])
    ensures Merged(Given(Indices(n + 1), chunks, Work(save, raises)))
            == Join(Merged(Given(Indices(n), chunks, Work(save, raises))), Pass(chunks[n], save))
  {
    assert Indices(n + 1)[..n] == Indices(n);
    GivenEnd(Indices(n + 1), chunks, save, raises);
  }

  lemma OneMorePass(chunks: seq<seq<int>>, n: nat, save: int -> Saved)
    requires n < |chunks|
    ensures Pass(Flatten(chunks[..n + 1]), save) == Join(Pass(Flatten(chunks[..n]), save), Pass(chunks[n], save))
  {
    assert chunks[..n + 1] == chunks[..n] + [chunks[n]];
    FlattenEnd(chunks[..n], chunks[n]);
    PassJoins(Flatten(chunks[..n]), chunks[n], save);
  }

  lemma {:induction false} MergedInOrderIsOnePass(
    chunks: seq<seq<int>>, n: nat, save: int -> Saved, raises: seq<int> -> bool)
    requires n <= |chunks| && forall i :: 0 <= i < |chunks| ==> !raises(chunks[i])
    ensures Merged(Given(Indices(n), chunks, Work(save, raises))) == Pass(Flatten(chunks[..n]), save)
  {
    if n == 0 {
      assert Merged(Given(Indices(0), chunks, Work(save, raises))) == EMPTY_BATCH by {
        assert Indices(0) == [];
      }
      assert chunks[..0] == [];
    } else {
      var before := Merged(Given(Indices(n - 1), chunks, Work(save, raises)));
      assert before == Pass(Flatten(chunks[..n - 1]), save) by { MergedInOrderIsOnePass(chunks, n - 1, save, raises); }
      assert Merged(Given(Indices(n), chunks, Work(save, raises))) == Join(before, Pass(chunks[n - 1], save)) by {
        OneMoreInOrder(chunks, n - 1, save, raises);
      }
      assert Pass(Flatten(chunks[..n]), save) == Join(before, Pass(chunks[n - 1], save)) by {
        OneMorePass(chunks, n - 1, save);
      }
    }
  }

  lemma {:induction false} FlattenEnd(chunks: seq<seq<int>>, last: seq<int>)
    ensures Flatten(chunks + [last]) == Flatten(chunks) + last
  {
    if chunks == [] {
      assert (chunks + [last])[1..] == [];
      assert last + [] == last;
    } else {
      assert (chunks + [last])[1..] == chunks[1..] + [last];
      FlattenEnd(chunks[1..], last);
    }
  }

  /** In this process the merged batches are the very batch of one pass, failures in order included. */
  lemma OneProcessIsOnePass(ids: seq<int>, save: int -> Saved, raises: seq<int> -> bool)
    requires forall i :: 0 <= i < |Chunks(ids)| ==> !raises(Chunks(ids)[i])
    ensures Merged(Given(Indices(|Chunks(ids)|), Chunks(ids), Work(save, raises))) == Pass(ids, save)
  {
    var chunks := Chunks(ids);
    MergedInOrderIsOnePass(chunks, |chunks|, save, raises);
    assert chunks[..|chunks|] == chunks;
    ChunksHoldAll(ids);
  }

  lemma TotalsInAnyOrder(order: seq<nat>, other: seq<nat>, chunks: seq<seq<int>>, save: int -> Saved)
    requires IsOrder(order, |chunks|) && IsOrder(other, |chunks|)
    ensures Total(order, ChunkTotals(chunks, save), Plus, NO_TOTALS)
            == Total(other, ChunkTotals(chunks, save), Plus, NO_TOTALS)
  {
    TotalsAddUp();
    TotalInAnyOrder(order, other, ChunkTotals(chunks, save), Plus, NO_TOTALS);
  }

  lemma MergedInAnyOrder(
    order: seq<nat>, other: seq<nat>, chunks: seq<seq<int>>, save: int -> Saved, raises: seq<int> -> bool)
    requires IsOrder(order, |chunks|) && IsOrder(other, |chunks|)
    requires forall i :: 0 <= i < |chunks| ==> !raises(chunks[i])
    ensures TotalsOf(Merged(Given(order, chunks, Work(save, raises))))
            == TotalsOf(Merged(Given(other, chunks, Work(save, raises))))
  {
    MergedIsTotal(order, chunks, save, raises);
    MergedIsTotal(other, chunks, save, raises);
    TotalsInAnyOrder(order, other, chunks, save);
  }

  /** In any number of processes, however their chunks end, the totals are those of one pass. */
  lemma AnyOrderGivesTheSameTotals(ids: seq<int>, order: seq<nat>, save: int -> Saved, raises: seq<int> -> bool)
    requires IsOrder(order, |Chunks(ids)|)
    requires forall i :: 0 <= i < |Chunks(ids)| ==> !raises(Chunks(ids)[i])
    ensures TotalsOf(Merged(Given(order, Chunks(ids), Work(save, raises)))) == TotalsOf(Pass(ids, save))
  {
    MergedInAnyOrder(order, Indices(|Chunks(ids)|), Chunks(ids), save, raises);
    OneProcessIsOnePass(ids, save, raises);
  }
}

/** The customer's table of candidates: the news each row links to, which candidates are shown, and in what order. */
module Candidates {
  import opened Wrappers
  import opened Sorting

  type Id = int
  type Moment = int
  type Day = int

  // The article of a person without events: `first` in `_candidate_news`

  datatype Mention = Mention(person: Id, article: Id, id: Id)

  /** (published is unknown, when, mention): unknown last, then the earliest, then the first mention. */
  datatype Rank = Rank(unknown: bool, published: Moment, mention: Id)

  predicate RankBelow(a: Rank, b: Rank) {
    (!a.unknown && b.unknown)
    || (a.unknown == b.unknown
        && (a.published < b.published || (a.published == b.published && a.mention < b.mention)))
  }

  /** `cards`: the articles that are stored, with their moment of publication if known. */
  function RankOf(m: Mention, cards: map<Id, Option<Moment>>): Rank
    requires m.article in cards
  {
    match cards[m.article]
    case None => Rank(true, 0, m.id)
    case Some(at) => Rank(false, at, m.id)
  }

  /** `m` is a stored mention of the person, and none of them ranks below it. */
  ghost predicate IsFirst(mentions: seq<Mention>, cards: map<Id, Option<Moment>>, m: Mention) {
    && m in mentions && m.article in cards
    && forall other :: other in mentions && other.person == m.person && other.article in cards ==>
         !RankBelow(RankOf(other, cards), RankOf(m, cards))
  }

  method FirstMentions(mentions: seq<Mention>, cards: map<Id, Option<Moment>>) returns (first: map<Id, Mention>)
    ensures forall p :: p in first ==> first[p].person == p && IsFirst(mentions, cards, first[p])
    ensures forall m :: m in mentions && m.article in cards ==> m.person in first
  {
    first := map[];
    for i := 0 to |mentions|
      invariant forall p :: p in first ==> first[p].person == p && IsFirst(mentions[..i], cards, first[p])
      invariant forall m :: m in mentions[..i] && m.article in cards ==> m.person in first
    {
      var m := mentions[i];
      assert mentions[..i + 1] == mentions[..i] + [m];
      if m.article in cards && (m.person !in first || RankBelow(RankOf(m, cards), RankOf(first[m.person], cards))) {
        first := first[m.person := m];
      }
    }
    assert mentions[..|mentions|] == mentions;
  }

  /** The mention chosen is one only, in whatever order they are read: a mention id is given once. */
  lemma FirstIsUnique(mentions: seq<Mention>, cards: map<Id, Option<Moment>>, a: Mention, b: Mention)
    requires forall x, y :: x in mentions && y in mentions && x.id == y.id ==> x == y
    requires IsFirst(mentions, cards, a) && IsFirst(mentions, cards, b) && a.person == b.person
    ensures a == b
  {
    assert RankOf(a, cards) == RankOf(b, cards);
  }

  /** It is of the earliest article known to be dated, the least mention of those; undated articles count only when no other is stored. */
  lemma FirstIsEarliest(mentions: seq<Mention>, cards: map<Id, Option<Moment>>, m: Mention, other: Mention)
    requires IsFirst(mentions, cards, m) && other in mentions && other.person == m.person && other.article in cards
    ensures
      var own, at := cards[m.article], cards[other.article];
      && (own.None? ==> at.None?)
      && (own.Some? && at.Some? ==> own.value <= at.value)
      && (own == at ==> m.id <= other.id)
  {
  }

  // Criminal or administrative

  const POLITICAL_CHARGE := "Политическая статья:"
  const CRIMINAL_CODE := "УК"
  const FINE := "fine"

  predicate Contains(s: string, part: string) {
    exists i :: 0 <= i <= |s| && part <= s[i..]
  }

  predicate IsCharge(reason: string) { POLITICAL_CHARGE <= reason }

  predicate HasCharge(reasons: seq<string>) {
    exists r | r in reasons :: IsCharge(r)
  }

  predicate HasCriminalCharge(reasons: seq<string>) {
    exists r | r in reasons :: IsCharge(r) && Contains(r, CRIMINAL_CODE)
  }

  predicate IsAdministrativeOnly(reasons: seq<string>, eventType: Option<string>) {
    if HasCharge(reasons) && !HasCriminalCharge(reasons) then true
    else eventType == Some(FINE) && !HasCriminalCharge(reasons)
  }

  predicate HasCriminalEvents(eventType: Option<string>, reasons: seq<string>) {
    if HasCriminalCharge(reasons) then true
    else if HasCharge(reasons) then false
    else eventType.Some? && eventType.value != FINE
  }

  /**
   The two tests, written apart, never both hold; and one of them holds exactly when there is
   something to tell by: a charge, or an event.
   */
  lemma CriminalOrAdministrative(reasons: seq<string>, eventType: Option<string>)
    ensures !(IsAdministrativeOnly(reasons, eventType) && HasCriminalEvents(eventType, reasons))
    ensures IsAdministrativeOnly(reasons, eventType) || HasCriminalEvents(eventType, reasons)
            <==> HasCharge(reasons) || eventType.Some?
  {
    if HasCriminalCharge(reasons) {
      var r :| r in reasons && IsCharge(r) && Contains(r, CRIMINAL_CODE);
      assert HasCharge(reasons);
    }
  }

  // Selection

  datatype Candidate = Candidate(person: Id, reasons: seq<string>)

  datatype News = News(published: Option<Moment>, eventType: Option<string>, eventDate: Option<Moment>)

  datatype Row = Row(candidate: Candidate, news: Option<News>)

  datatype Filter = Filter(
    periodStart: Option<Day>, periodEnd: Option<Day>, includeAdministrative: bool, criminalOnly: bool,
    byEventDate: bool)

  function EventTypeOf(news: Option<News>): Option<string> {
    if news.Some? then news.value.eventType else None
  }

  function PublishedOf(news: Option<News>): Option<Moment> {
    if news.Some? then news.value.published else None
  }

  /** `dayOf`: the Moscow day of a moment. */
  predicate Passes(row: Row, filter: Filter, dayOf: Moment -> Day) {
    var eventType, published := EventTypeOf(row.news), PublishedOf(row.news);
    var eventDate := if row.news.Some? then row.news.value.eventDate else None;
    && (filter.includeAdministrative || !IsAdministrativeOnly(row.candidate.reasons, eventType))
    && (filter.criminalOnly ==> HasCriminalEvents(eventType, row.candidate.reasons))
    && (filter.periodStart.Some? ==> published.Some? && dayOf(published.value) >= filter.periodStart.value)
    && (filter.periodEnd.Some? ==> published.Some? && dayOf(published.value) <= filter.periodEnd.value)
    && (filter.byEventDate && filter.periodStart.Some? && eventDate.Some? ==>
          dayOf(eventDate.value) >= filter.periodStart.value)
  }

  /** A charge that names the Code at a place. */
  ghost predicate ChargeNames(reason: string, at: int, code: string) {
    "Политическая статья:" <= reason && 0 <= at <= |reason| - |code| && reason[at..at + |code|] == code
  }

  /**
   A row is shown by what is known of it: a criminal charge, another charge, or a fine; and its
   published day, and the day of its event, within the period.
   */
  lemma PassesIff(row: Row, filter: Filter, dayOf: Moment -> Day)
    ensures
      var reasons, news := row.candidate.reasons, row.news;
      var criminal := exists r, i :: r in reasons && ChargeNames(r, i, "УК");
      var charged := exists r :: r in reasons && "Политическая статья:" <= r;
      var event := if news.Some? then news.value.eventType else None;
      var published := if news.Some? then news.value.published else None;
      var dated := if news.Some? then news.value.eventDate else None;
      Passes(row, filter, dayOf) <==>
      && (filter.criminalOnly ==> criminal || (!charged && event.Some? && event.value != "fine"))
      && (!filter.includeAdministrative ==> criminal || (!charged && event != Some("fine")))
      && (filter.periodStart.Some? || filter.periodEnd.Some? ==> published.Some?)
      && (filter.periodStart.Some? ==> filter.periodStart.value <= dayOf(published.value))
      && (filter.periodEnd.Some? ==> dayOf(published.value) <= filter.periodEnd.value)
      && (filter.byEventDate && filter.periodStart.Some? ==> dated.None? || filter.periodStart.value <= dayOf(dated.value))
  {
    var reasons := row.candidate.reasons;
    if HasCriminalCharge(reasons) {
      var r :| r in reasons && IsCharge(r) && Contains(r, CRIMINAL_CODE);
      var i :| 0 <= i <= |r| && CRIMINAL_CODE <= r[i..];
      assert r[i..i + 2] == r[i..][..2];
      assert ChargeNames(r, i, "УК");
    }
    if r, i :| r in reasons && ChargeNames(r, i, "УК") {
      assert r[i..][..2] == r[i..i + 2];
      assert CRIMINAL_CODE <= r[i..];
    }
    assert HasCharge(reasons) <==> exists r :: r in reasons && "Политическая статья:" <= r;
  }

  function RowOf(c: Candidate, news: map<Id, News>): Row {
    Row(c, if c.person in news then Some(news[c.person]) else None)
  }

  ghost function Kept(candidates: seq<Candidate>, news: map<Id, News>, filter: Filter, dayOf: Moment -> Day): seq<Row> {
    if candidates == [] then []
    else
      var row := RowOf(candidates[|candidates| - 1], news);
      Kept(candidates[..|candidates| - 1], news, filter, dayOf) + if Passes(row, filter, dayOf) then [row] else []
  }

  // Order

  function Priority(eventType: Option<string>): int {
    if eventType.None? then 2
    else if eventType.value in {"case_opened", "charge", "arrest", "sentence"} then 0
    else if eventType.value in {"detention", "search"} then 1
    else 2
  }

  /** (category, published is unknown, the latest first, person) */
  predicate InOrder(a: Row, b: Row) {
    var priorityA, priorityB := Priority(EventTypeOf(a.news)), Priority(EventTypeOf(b.news));
    var whenA, whenB := PublishedOf(a.news), PublishedOf(b.news);
    priorityA < priorityB
    || (priorityA == priorityB
        && ((whenA.Some? && whenB.None?)
            || (whenA.Some? && whenB.Some? && whenA.value > whenB.value)
            || (whenA == whenB && a.candidate.person <= b.candidate.person)))
  }

  /** The sort key of the source: category, undated last, the latest first, person. */
  function KeyOf(row: Row): seq<int> {
    var published := if row.news.Some? then row.news.value.published else None;
    [ Priority(if row.news.Some? then row.news.value.eventType else None),
      if published.None? then 1 else 0,
      if published.Some? then -published.value else 0,
      row.candidate.person ]
  }

  /** Rows are in order by the first of the four that differs. */
  lemma InOrderIff(a: Row, b: Row)
    ensures InOrder(a, b) <==> KeyOf(a) == KeyOf(b)
                               || exists k :: 0 <= k < 4 && KeyOf(a)[..k] == KeyOf(b)[..k] && KeyOf(a)[k] < KeyOf(b)[k]
  {
    var x, y := KeyOf(a), KeyOf(b);
    assert x[..0] == y[..0];
    assert x[..1] == y[..1] <==> x[0] == y[0];
    assert x[..2] == y[..2] <==> x[0] == y[0] && x[1] == y[1];
    assert x[..3] == y[..3] <==> x[0] == y[0] && x[1] == y[1] && x[2] == y[2];
    assert x == y <==> x[..3] == y[..3] && x[3] == y[3];
    FirstOfFour(x, y);
  }

  lemma FirstOfFour(x: seq<int>, y: seq<int>)
    requires |x| == |y| == 4
    ensures (exists k :: 0 <= k < 4 && x[..k] == y[..k] && x[k] < y[k])
            <==> (x[..0] == y[..0] && x[0] < y[0]) || (x[..1] == y[..1] && x[1] < y[1])
                 || (x[..2] == y[..2] && x[2] < y[2]) || (x[..3] == y[..3] && x[3] < y[3])
  {
    if k :| 0 <= k < 4 && x[..k] == y[..k] && x[k] < y[k] {
      assert k == 0 || k == 1 || k == 2 || k == 3;
    }
  }

  /** A case, a charge, an arrest or a sentence first, then a detention or a search, then all else. */
  lemma PrioritiesAre()
    ensures Priority(Some("case_opened")) == Priority(Some("charge")) == Priority(Some("arrest")) == Priority(Some("sentence"))
    ensures Priority(Some("sentence")) < Priority(Some("detention")) == Priority(Some("search"))
    ensures Priority(Some("search")) < Priority(Some("fine")) == Priority(None)
    ensures forall e: Option<string> :: Priority(e) > Priority(Some("search")) || e.Some?
    ensures forall e :: e !in {"case_opened", "charge", "arrest", "sentence", "detention", "search"} ==>
              Priority(Some(e)) == Priority(None)
  {
  }

  lemma InOrderIsTotal()
    ensures TotalPreorder(InOrder)
  {
  }

  /** `select_candidate_rows`, after the candidates and their news are read. */
  method SelectRows(candidates: seq<Candidate>, news: map<Id, News>, filter: Filter, dayOf: Moment -> Day)
    returns (rows: seq<Row>)
    ensures Ordered(rows, InOrder)
    ensures multiset(rows) == multiset(Kept(candidates, news, filter, dayOf))
  {
    var kept: seq<Row> := [];
    for i := 0 to |candidates|
      invariant kept == Kept(candidates[..i], news, filter, dayOf)
    {
      assert candidates[..i + 1][..i] == candidates[..i];
      var row := RowOf(candidates[i], news);
      if Passes(row, filter, dayOf) { kept := kept + [row]; }
    }
    assert candidates[..|candidates|] == candidates;
    InOrderIsTotal();
    SortIsOrdered(kept, InOrder);
    rows := Sort(kept, InOrder);
  }

  lemma {:induction false} KeptAre(candidates: seq<Candidate>, news: map<Id, News>, filter: Filter, dayOf: Moment -> Day)
    ensures forall row :: row in Kept(candidates, news, filter, dayOf) <==>
                          && row.candidate in candidates && Passes(row, filter, dayOf)
                          && row.news == if row.candidate.person in news then Some(news[row.candidate.person]) else None
  {
    if candidates != [] {
      var n := |candidates| - 1;
      KeptAre(candidates[..n], news, filter, dayOf);
      assert candidates == candidates[..n] + [candidates[n]];
    }
  }

  lemma {:induction false} KeptCounts(candidates: seq<Candidate>, news: map<Id, News>, filter: Filter, dayOf: Moment -> Day)
    ensures forall row :: multiset(Kept(candidates, news, filter, dayOf))[row]
                          == if row == RowOf(row.candidate, news) && Passes(row, filter, dayOf)
                             then multiset(candidates)[row.candidate] else 0
  {
    if candidates != [] {
      var n := |candidates| - 1;
      KeptCounts(candidates[..n], news, filter, dayOf);
      assert candidates == candidates[..n] + [candidates[n]];
    }
  }

  lemma KeptInAnyOrder(
    candidates: seq<Candidate>, shuffled: seq<Candidate>, news: map<Id, News>, filter: Filter, dayOf: Moment -> Day)
    requires multiset(candidates) == multiset(shuffled)
    ensures multiset(Kept(candidates, news, filter, dayOf)) == multiset(Kept(shuffled, news, filter, dayOf))
  {
    KeptCounts(candidates, news, filter, dayOf);
    KeptCounts(shuffled, news, filter, dayOf);
    forall row: Row
      ensures multiset(Kept(candidates, news, filter, dayOf))[row] == multiset(Kept(shuffled, news, filter, dayOf))[row]
    {
    }
  }

  /** The table is settled by which candidates there are, in whatever order: a person is a candidate once, and no two rows tie. */
  lemma RowsAreSettled(
    candidates: seq<Candidate>, shuffled: seq<Candidate>, news: map<Id, News>, filter: Filter, dayOf: Moment -> Day,
    rows: seq<Row>, others: seq<Row>)
    requires multiset(candidates) == multiset(shuffled)
    requires forall a, b :: a in candidates && b in candidates && a.person == b.person ==> a == b
    requires Ordered(rows, InOrder) && multiset(rows) == multiset(Kept(candidates, news, filter, dayOf))
    requires Ordered(others, InOrder) && multiset(others) == multiset(Kept(shuffled, news, filter, dayOf))
    ensures rows == others
  {
    KeptInAnyOrder(candidates, shuffled, news, filter, dayOf);
    KeptAre(candidates, news, filter, dayOf);
    forall a, b | a in rows && b in rows && InOrder(a, b) && InOrder(b, a)
      ensures a == b
    {
      assert a in multiset(rows) && b in multiset(rows);
      assert a in Kept(candidates, news, filter, dayOf) && b in Kept(candidates, news, filter, dayOf);
      assert a.candidate.person == b.candidate.person;
    }
    OrderedListingIsUnique(rows, others, InOrder);
  }

  /** Asked for criminal cases only, the table is the same whether administrative ones are included or not. */
  lemma {:induction false} CriminalOnlySettlesAdministrative(
    candidates: seq<Candidate>, news: map<Id, News>, filter: Filter, dayOf: Moment -> Day)
    requires filter.criminalOnly
    ensures Kept(candidates, news, filter, dayOf)
            == Kept(candidates, news, filter.(includeAdministrative := !filter.includeAdministrative), dayOf)
  {
    if candidates != [] {
      var n := |candidates| - 1;
      var row := RowOf(candidates[n], news);
      CriminalOnlySettlesAdministrative(candidates[..n], news, filter, dayOf);
      CriminalOrAdministrative(row.candidate.reasons, EventTypeOf(row.news));
    }
  }

  /** A later start of the period only takes rows away. */
  lemma {:induction false} LaterPeriodShowsFewer(
    candidates: seq<Candidate>, news: map<Id, News>, filter: Filter, later: Day, dayOf: Moment -> Day)
    requires filter.periodStart.Some? ==> filter.periodStart.value <= later
    ensures multiset(Kept(candidates, news, filter.(periodStart := Some(later)), dayOf))
            <= multiset(Kept(candidates, news, filter, dayOf))
  {
    if candidates != [] {
      LaterPeriodShowsFewer(candidates[..|candidates| - 1], news, filter, later, dayOf);
    }
  }
}

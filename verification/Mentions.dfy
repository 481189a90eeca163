/** What the mentions of an event name: each person, organisation and article once, in the order of the text. */
module Mentions {
  import opened Wrappers
  import opened Dicts
  import opened Reports
  import opened NodeIds
  import opened GraphPayload

  /**
   A mention of the event, its texts already collapsed and case-folded: `name` and `folded`
   of an organisation or a person; `code` and `article` of a legal reference, and `head`, the
   Code without the country's name.
   */
  datatype Mention = Mention(
    isPerson: bool, role: Role, group: Option<Group>, key: string, name: string, folded: string,
    head: string, code: string, article: string)

  predicate NamesPerson(m: Mention) { m.isPerson && m.group.Some? }
  predicate NamesNobody(m: Mention) { m.isPerson && m.group.None? }
  predicate NamesOrg(m: Mention) { !m.isPerson && m.role in {"court", "authority"} && m.name != [] }
  predicate NamesArticle(m: Mention) { !m.isPerson && m.role == "legal_basis" && m.article != [] && m.code != [] }

  // What the loop over the mentions gathers

  ghost predicate FirstNames(ms: seq<Mention>, i: nat, group: Group) {
    && i < |ms| && NamesPerson(ms[i]) && ms[i].group == Some(group)
    && forall j :: 0 <= j < i && NamesPerson(ms[j]) ==> ms[j].group != Some(group)
  }

  ghost predicate IsFirstOf(ms: seq<Mention>, group: Group, m: Mention) {
    exists i: nat :: FirstNames(ms, i, group) && ms[i] == m
  }

  /** Each person named, by the first mention of them. */
  ghost predicate PeopleRead(ms: seq<Mention>, people: Dict<Group, Mention>) {
    && people.Valid()
    && (forall m :: m in ms && NamesPerson(m) ==> m.group.value in people.items)
    && (forall g :: g in people.items ==> IsFirstOf(ms, g, people.items[g]))
  }

  ghost predicate OrgsRead(ms: seq<Mention>, orgs: Dict<string, Role>) {
    && orgs.Valid()
    && (forall m :: m in ms && NamesOrg(m) ==> OrgNode(m.role, m.folded) in orgs.items)
    && (forall id :: id in orgs.items ==>
          exists m :: m in ms && NamesOrg(m) && id == OrgNode(m.role, m.folded) && orgs.items[id] == m.role)
  }

  ghost predicate ArticlesRead(ms: seq<Mention>, legal: seq<string>) {
    && Distinct(legal)
    && (forall m :: m in ms && NamesArticle(m) ==> ArticleNode(m.head, m.article) in legal)
    && (forall id :: id in legal ==> exists m :: m in ms && NamesArticle(m) && id == ArticleNode(m.head, m.article))
  }

  /** What the loop over the mentions has gathered: people, names without a person, organisations. */
  datatype Gathering = Gathering(people: Dict<Group, Mention>, unresolved: set<string>, orgs: Dict<string, Role>) {
    ghost predicate Valid() { people.Valid() && orgs.Valid() }
  }

  /** One mention taken in; a legal reference is drawn instead. */
  function Take(g: Gathering, m: Mention): (next: Gathering)
    requires g.Valid()
    ensures next.Valid()
  {
    if NamesNobody(m) then g.(unresolved := g.unresolved + {m.folded})
    else if NamesPerson(m) then g.(people := g.people.SetDefault(m.group.value, m))
    else if NamesOrg(m) then g.(orgs := g.orgs.SetDefault(OrgNode(m.role, m.folded), m.role))
    else g
  }

  function Took(ms: seq<Mention>): (g: Gathering)
    ensures g.Valid()
  {
    if ms == [] then Gathering(Empty(), {}, Empty()) else Take(Took(ms[..|ms| - 1]), ms[|ms| - 1])
  }

  function LegalOf(ms: seq<Mention>): seq<string> {
    if ms == [] then []
    else
      var m := ms[|ms| - 1];
      if NamesArticle(m) then Once(LegalOf(ms[..|ms| - 1]), ArticleNode(m.head, m.article)) else LegalOf(ms[..|ms| - 1])
  }

  function Once<T(==)>(ids: seq<T>, id: T): seq<T> {
    if id in ids then ids else ids + [id]
  }

  ghost predicate UnresolvedRead(ms: seq<Mention>, unresolved: set<string>) {
    && (forall m :: m in ms && NamesNobody(m) ==> m.folded in unresolved)
    && (forall folded :: folded in unresolved ==> exists m :: m in ms && NamesNobody(m) && m.folded == folded)
  }

  lemma {:induction false} TookReads(ms: seq<Mention>)
    ensures PeopleRead(ms, Took(ms).people) && OrgsRead(ms, Took(ms).orgs)
    ensures UnresolvedRead(ms, Took(ms).unresolved) && ArticlesRead(ms, LegalOf(ms))
  {
    if ms != [] {
      var before, m := ms[..|ms| - 1], ms[|ms| - 1];
      assert ms == before + [m];
      TookReads(before);
      ReadPerson(before, m, Took(before).people);
      ReadOrg(before, m, Took(before).orgs);
      ReadArticle(before, m, LegalOf(before));
      ReadUnresolved(before, m, Took(before).unresolved);
    }
  }

  lemma ReadUnresolved(ms: seq<Mention>, m: Mention, unresolved: set<string>)
    requires UnresolvedRead(ms, unresolved)
    ensures UnresolvedRead(ms + [m], if NamesNobody(m) then unresolved + {m.folded} else unresolved)
  {
    assert m in ms + [m];
    forall folded | folded in unresolved
      ensures exists x :: x in ms + [m] && NamesNobody(x) && x.folded == folded
    {
      var x :| x in ms && NamesNobody(x) && x.folded == folded;
      assert x in ms + [m];
    }
  }

  lemma ReadPerson(ms: seq<Mention>, m: Mention, people: Dict<Group, Mention>)
    requires PeopleRead(ms, people)
    ensures !NamesPerson(m) ==> PeopleRead(ms + [m], people)
    ensures NamesPerson(m) ==> PeopleRead(ms + [m], people.SetDefault(m.group.value, m))
  {
    var all := ms + [m];
    forall g | g in people.items
      ensures IsFirstOf(all, g, people.items[g])
    {
      var i: nat :| FirstNames(ms, i, g) && ms[i] == people.items[g];
      assert FirstNames(all, i, g) && all[i] == people.items[g];
    }
    if NamesPerson(m) && m.group.value !in people.items {
      assert FirstNames(all, |ms|, m.group.value) by {
        forall j | 0 <= j < |ms| && NamesPerson(ms[j])
          ensures ms[j].group != m.group
        {
          assert ms[j] in ms;
        }
      }
      assert all[|ms|] == m;
    }
  }

  lemma ReadOrg(ms: seq<Mention>, m: Mention, orgs: Dict<string, Role>)
    requires OrgsRead(ms, orgs)
    ensures !NamesOrg(m) ==> OrgsRead(ms + [m], orgs)
    ensures NamesOrg(m) ==> OrgsRead(ms + [m], orgs.SetDefault(OrgNode(m.role, m.folded), m.role))
  {
    assert m in ms + [m];
    forall id | id in orgs.items
      ensures exists x :: x in ms + [m] && NamesOrg(x) && id == OrgNode(x.role, x.folded) && orgs.items[id] == x.role
    {
      var x :| x in ms && NamesOrg(x) && id == OrgNode(x.role, x.folded) && orgs.items[id] == x.role;
      assert x in ms + [m];
    }
  }

  lemma ReadArticle(ms: seq<Mention>, m: Mention, legal: seq<string>)
    requires ArticlesRead(ms, legal)
    ensures !NamesArticle(m) ==> ArticlesRead(ms + [m], legal)
    ensures NamesArticle(m) ==> ArticlesRead(ms + [m], Once(legal, ArticleNode(m.head, m.article)))
  {
    assert m in ms + [m];
    forall id | id in legal
      ensures exists x :: x in ms + [m] && NamesArticle(x) && id == ArticleNode(x.head, x.article)
    {
      var x :| x in ms && NamesArticle(x) && id == ArticleNode(x.head, x.article);
      assert x in ms + [m];
    }
  }

  // In the order of the text

  /** What a mention names, of one kind, if it names any. */
  function PersonKey(m: Mention): Option<Group> { if m.isPerson then m.group else None }

  function OrgKey(m: Mention): Option<string> {
    if !m.isPerson && (m.role == "court" || m.role == "authority") && m.name != []
    then Some("org:" + m.role + ":" + m.folded) else None
  }

  function LegalKey(m: Mention): Option<string> {
    if !m.isPerson && m.role == "legal_basis" && m.article != [] && m.code != []
    then Some("article:" + m.head + ":" + m.article) else None
  }

  /** The mention at `k` is the first to name what it names. */
  ghost predicate FirstToName<K>(ms: seq<Mention>, keyOf: Mention -> Option<K>, k: nat) {
    k < |ms| && keyOf(ms[k]).Some? && forall j :: 0 <= j < k ==> keyOf(ms[j]) != keyOf(ms[k])
  }

  /** `places` are the mentions that are first to name something, in the order of the text. */
  ghost predicate ListsFirst<K>(places: seq<nat>, ms: seq<Mention>, keyOf: Mention -> Option<K>) {
    && (forall i, j :: 0 <= i < j < |places| ==> places[i] < places[j])
    && (forall i :: 0 <= i < |places| ==> FirstToName(ms, keyOf, places[i]))
    && (forall k: nat {:trigger FirstToName(ms, keyOf, k)} :: FirstToName(ms, keyOf, k) ==> k in places)
  }

  function Named<K(==)>(ms: seq<Mention>, keyOf: Mention -> Option<K>): seq<K> {
    if ms == [] then []
    else
      var before, key := Named(ms[..|ms| - 1], keyOf), keyOf(ms[|ms| - 1]);
      if key.None? || key.value in before then before else before + [key.value]
  }

  function FirstPlaces<K(==)>(ms: seq<Mention>, keyOf: Mention -> Option<K>): seq<nat> {
    if ms == [] then []
    else
      var n := |ms| - 1;
      var key := keyOf(ms[n]);
      FirstPlaces(ms[..n], keyOf) + if key.None? || key.value in Named(ms[..n], keyOf) then [] else [n]
  }

  lemma {:induction false} NamedIffSome<K>(ms: seq<Mention>, keyOf: Mention -> Option<K>, key: K)
    ensures key in Named(ms, keyOf) <==> exists j :: 0 <= j < |ms| && keyOf(ms[j]) == Some(key)
  {
    if ms != [] {
      var n := |ms| - 1;
      NamedIffSome(ms[..n], keyOf, key);
      if j :| 0 <= j < |ms| && keyOf(ms[j]) == Some(key) {
        if j < n { assert keyOf(ms[..n][j]) == Some(key); }
      }
      if j :| 0 <= j < n && keyOf(ms[..n][j]) == Some(key) { assert keyOf(ms[j]) == Some(key); }
    }
  }

  lemma FirstBefore<K>(ms: seq<Mention>, n: nat, keyOf: Mention -> Option<K>, k: nat)
    requires n <= |ms| && k < n
    ensures FirstToName(ms[..n], keyOf, k) <==> FirstToName(ms, keyOf, k)
  {
    if FirstToName(ms[..n], keyOf, k) {
      forall j | 0 <= j < k
        ensures keyOf(ms[j]) != keyOf(ms[k])
      {
        assert keyOf(ms[..n][j]) != keyOf(ms[..n][k]);
      }
    }
  }

  lemma LastIsFirstIff<K>(ms: seq<Mention>, keyOf: Mention -> Option<K>)
    requires ms != []
    ensures
      var n := |ms| - 1;
      FirstToName(ms, keyOf, n) <==> keyOf(ms[n]).Some? && keyOf(ms[n]).value !in Named(ms[..n], keyOf)
  {
    var n := |ms| - 1;
    if keyOf(ms[n]).Some? {
      NamedIffSome(ms[..n], keyOf, keyOf(ms[n]).value);
      if j :| 0 <= j < n && keyOf(ms[..n][j]) == keyOf(ms[n]) { assert keyOf(ms[j]) == keyOf(ms[n]); }
      if FirstToName(ms, keyOf, n) {
        forall j | 0 <= j < n
          ensures keyOf(ms[..n][j]) != keyOf(ms[n])
        {
          assert ms[..n][j] == ms[j];
        }
      }
    }
  }

  lemma {:induction false} PlacesAreFirst<K>(ms: seq<Mention>, keyOf: Mention -> Option<K>, i: nat)
    requires i < |FirstPlaces(ms, keyOf)|
    ensures FirstToName(ms, keyOf, FirstPlaces(ms, keyOf)[i])
  {
    var n := |ms| - 1;
    LastIsFirstIff(ms, keyOf);
    if i < |FirstPlaces(ms[..n], keyOf)| {
      PlacesAreFirst(ms[..n], keyOf, i);
      FirstBefore(ms, n, keyOf, FirstPlaces(ms, keyOf)[i]);
    }
  }

  lemma {:induction false} FirstIsPlace<K>(ms: seq<Mention>, keyOf: Mention -> Option<K>, k: nat)
    requires FirstToName(ms, keyOf, k)
    ensures k in FirstPlaces(ms, keyOf)
  {
    var n := |ms| - 1;
    LastIsFirstIff(ms, keyOf);
    if k < n {
      FirstBefore(ms, n, keyOf, k);
      FirstIsPlace(ms[..n], keyOf, k);
    }
  }

  lemma {:induction false} PlacesAscend<K>(ms: seq<Mention>, keyOf: Mention -> Option<K>)
    ensures forall i, j :: 0 <= i < j < |FirstPlaces(ms, keyOf)| ==> FirstPlaces(ms, keyOf)[i] < FirstPlaces(ms, keyOf)[j]
    ensures forall i :: 0 <= i < |FirstPlaces(ms, keyOf)| ==> FirstPlaces(ms, keyOf)[i] < |ms|
    ensures |FirstPlaces(ms, keyOf)| == |Named(ms, keyOf)|
  {
    if ms != [] { PlacesAscend(ms[..|ms| - 1], keyOf); }
  }

  lemma FirstPlacesAreFirst<K>(ms: seq<Mention>, keyOf: Mention -> Option<K>)
    ensures ListsFirst(FirstPlaces(ms, keyOf), ms, keyOf)
  {
    var places := FirstPlaces(ms, keyOf);
    PlacesAscend(ms, keyOf);
    forall i | 0 <= i < |places|
      ensures FirstToName(ms, keyOf, places[i])
    {
      PlacesAreFirst(ms, keyOf, i);
    }
    forall k: nat | FirstToName(ms, keyOf, k)
      ensures k in places
    {
      FirstIsPlace(ms, keyOf, k);
    }
  }

  /** `setdefault` over the mentions that name something. */
  function Collected<K(==), V>(ms: seq<Mention>, keyOf: Mention -> Option<K>, valueOf: Mention -> V): (d: Dict<K, V>)
    ensures d.Valid()
  {
    if ms == [] then Empty()
    else
      var before, last := Collected(ms[..|ms| - 1], keyOf, valueOf), ms[|ms| - 1];
      if keyOf(last).None? then before else before.SetDefault(keyOf(last).value, valueOf(last))
  }

  lemma {:induction false} CollectedInOrder<K, V>(ms: seq<Mention>, keyOf: Mention -> Option<K>, valueOf: Mention -> V)
    ensures Collected(ms, keyOf, valueOf).keys == Named(ms, keyOf)
  {
    if ms != [] { CollectedInOrder(ms[..|ms| - 1], keyOf, valueOf); }
  }

  lemma {:induction false} CollectedAt<K, V>(ms: seq<Mention>, keyOf: Mention -> Option<K>, valueOf: Mention -> V, i: nat)
    requires i < |Named(ms, keyOf)|
    ensures |FirstPlaces(ms, keyOf)| == |Named(ms, keyOf)| && FirstPlaces(ms, keyOf)[i] < |ms|
    ensures Named(ms, keyOf)[i] in Collected(ms, keyOf, valueOf).items
    ensures Collected(ms, keyOf, valueOf).items[Named(ms, keyOf)[i]] == valueOf(ms[FirstPlaces(ms, keyOf)[i]])
  {
    var before := ms[..|ms| - 1];
    PlacesAscend(ms, keyOf);
    PlacesAscend(before, keyOf);
    CollectedInOrder(before, keyOf, valueOf);
    if i < |Named(before, keyOf)| { CollectedAt(before, keyOf, valueOf, i); }
  }

  function Whole(m: Mention): Mention { m }

  function RoleIn(m: Mention): Role { m.role }

  lemma {:induction false} TookCollects(ms: seq<Mention>)
    ensures Took(ms).people == Collected(ms, PersonKey, Whole)
    ensures Took(ms).orgs == Collected(ms, OrgKey, RoleIn)
  {
    if ms != [] { TookCollects(ms[..|ms| - 1]); }
  }

  /** The people gathered, in order: those named, each by the mention first to name them. */
  lemma PeopleInOrder(ms: seq<Mention>, i: nat)
    requires i < |Took(ms).people.keys|
    ensures |Took(ms).people.keys| == |FirstPlaces(ms, PersonKey)| && FirstPlaces(ms, PersonKey)[i] < |ms|
    ensures Took(ms).people.Values()[i] == ms[FirstPlaces(ms, PersonKey)[i]]
  {
    TookCollects(ms);
    CollectedInOrder(ms, PersonKey, Whole);
    CollectedAt(ms, PersonKey, Whole, i);
  }

  /** The organisations gathered, in order, each with the name and the role of the mention first to name it. */
  lemma OrgsInOrder(ms: seq<Mention>, i: nat)
    requires i < |Took(ms).orgs.keys|
    ensures |Took(ms).orgs.keys| == |FirstPlaces(ms, OrgKey)| && FirstPlaces(ms, OrgKey)[i] < |ms|
    ensures
      var orgs, m := Took(ms).orgs, ms[FirstPlaces(ms, OrgKey)[i]];
      orgs.keys[i] == "org:" + m.role + ":" + m.folded && orgs.items[orgs.keys[i]] == m.role
  {
    TookCollects(ms);
    CollectedInOrder(ms, OrgKey, RoleIn);
    CollectedAt(ms, OrgKey, RoleIn, i);
    NamedAt(ms, OrgKey, i);
  }

  lemma {:induction false} NamedAt<K>(ms: seq<Mention>, keyOf: Mention -> Option<K>, i: nat)
    requires i < |Named(ms, keyOf)|
    ensures |FirstPlaces(ms, keyOf)| == |Named(ms, keyOf)| && FirstPlaces(ms, keyOf)[i] < |ms|
    ensures keyOf(ms[FirstPlaces(ms, keyOf)[i]]) == Some(Named(ms, keyOf)[i])
  {
    var before := ms[..|ms| - 1];
    PlacesAscend(ms, keyOf);
    PlacesAscend(before, keyOf);
    if i < |Named(before, keyOf)| { NamedAt(before, keyOf, i); }
  }

  lemma {:induction false} ArticlesInOrder(ms: seq<Mention>)
    ensures LegalOf(ms) == Named(ms, LegalKey)
  {
    if ms != [] { ArticlesInOrder(ms[..|ms| - 1]); }
  }

  /** The names that no person was made of, spelling aside. */
  lemma UnresolvedAre(ms: seq<Mention>)
    ensures Took(ms).unresolved == set m | m in ms && m.isPerson && m.group.None? :: m.folded
  {
    TookReads(ms);
  }
}

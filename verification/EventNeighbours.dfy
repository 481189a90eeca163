/** `expand_event`: what an event names, each thing once, in the order of the text, up to a limit of each kind. */
module EventNeighbours {
  import opened Wrappers
  import opened Dicts
  import opened Reports
  import opened NodeIds
  import opened GraphPayload
  import opened Mentions

  // The edges of the answer

  /** What is drawn around an event: publications, articles of a Code, organisations, people. */
  datatype Neighbours = Neighbours(
    told: seq<Id>, legal: seq<string>, orgs: seq<(string, Role)>, people: seq<Mention>)

  ghost function PublicationEdges(event: string, told: seq<Id>): seq<string>
    requires forall i :: 0 <= i < |told| ==> told[i] >= 0
  {
    seq(|told|, i requires 0 <= i < |told| => EdgeId(event, PublicationNode(told[i]), "evidence"))
  }

  ghost function ArticleEdges(event: string, legal: seq<string>): seq<string> {
    seq(|legal|, i requires 0 <= i < |legal| => EdgeId(event, legal[i], "legal_basis"))
  }

  ghost function OrgEdges(event: string, orgs: seq<(string, Role)>): seq<string> {
    seq(|orgs|, i requires 0 <= i < |orgs| => EdgeId(event, orgs[i].0, orgs[i].1))
  }

  ghost function PersonEdges(event: string, people: seq<Mention>): seq<string> {
    seq(|people|, i requires 0 <= i < |people| => EdgeId(PersonNode(people[i].key), event, people[i].role))
  }

  ghost function EdgesOf(event: string, n: Neighbours): seq<string>
    requires forall i :: 0 <= i < |n.told| ==> n.told[i] >= 0
  {
    PublicationEdges(event, n.told) + ArticleEdges(event, n.legal) + OrgEdges(event, n.orgs)
    + PersonEdges(event, n.people)
  }

  ghost function PublicationNodes(told: seq<Id>): seq<string>
    requires forall i :: 0 <= i < |told| ==> told[i] >= 0
  {
    seq(|told|, i requires 0 <= i < |told| => PublicationNode(told[i]))
  }

  ghost function OrgNodes(orgs: seq<(string, Role)>): seq<string> {
    seq(|orgs|, i requires 0 <= i < |orgs| => orgs[i].0)
  }

  ghost function PersonNodes(people: seq<Mention>): seq<string> {
    seq(|people|, i requires 0 <= i < |people| => PersonNode(people[i].key))
  }

  lemma MembersOnce(ids: seq<string>, id: string)
    ensures Members(Once(ids, id)) == Members(ids) + {id}
  {
  }

  /** The other ends of an event's edges. */
  ghost function EndsOf(n: Neighbours): set<string>
    requires forall i :: 0 <= i < |n.told| ==> n.told[i] >= 0
  {
    Members(PublicationNodes(n.told)) + Members(n.legal) + Members(OrgNodes(n.orgs)) + Members(PersonNodes(n.people))
  }

  /** The edges, one by one: to each publication, article and organisation, and from each person. */
  lemma EdgesAre(event: string, n: Neighbours, e: string)
    requires forall i :: 0 <= i < |n.told| ==> n.told[i] >= 0
    ensures e in EdgesOf(event, n)
            <==> || (exists i :: 0 <= i < |n.told| && e == EdgeId(event, PublicationNode(n.told[i]), "evidence"))
                 || (exists i :: 0 <= i < |n.legal| && e == EdgeId(event, n.legal[i], "legal_basis"))
                 || (exists i :: 0 <= i < |n.orgs| && e == EdgeId(event, n.orgs[i].0, n.orgs[i].1))
                 || (exists i :: 0 <= i < |n.people| && e == EdgeId(PersonNode(n.people[i].key), event, n.people[i].role))
    ensures |EdgesOf(event, n)| == |n.told| + |n.legal| + |n.orgs| + |n.people|
  {
    assert e in EdgesOf(event, n) <==> e in PublicationEdges(event, n.told) || e in ArticleEdges(event, n.legal)
                                       || e in OrgEdges(event, n.orgs) || e in PersonEdges(event, n.people);
    InPublicationEdges(event, n.told, e);
    InArticleEdges(event, n.legal, e);
    InOrgEdges(event, n.orgs, e);
    InPersonEdges(event, n.people, e);
  }

  lemma InPublicationEdges(event: string, told: seq<Id>, e: string)
    requires forall i :: 0 <= i < |told| ==> told[i] >= 0
    ensures e in PublicationEdges(event, told)
            <==> exists i :: 0 <= i < |told| && e == EdgeId(event, PublicationNode(told[i]), "evidence")
  {
    if i :| 0 <= i < |told| && e == EdgeId(event, PublicationNode(told[i]), "evidence") {
      assert PublicationEdges(event, told)[i] == e;
    }
  }

  lemma InArticleEdges(event: string, legal: seq<string>, e: string)
    ensures e in ArticleEdges(event, legal) <==> exists i :: 0 <= i < |legal| && e == EdgeId(event, legal[i], "legal_basis")
  {
    if i :| 0 <= i < |legal| && e == EdgeId(event, legal[i], "legal_basis") { assert ArticleEdges(event, legal)[i] == e; }
  }

  lemma InOrgEdges(event: string, orgs: seq<(string, Role)>, e: string)
    ensures e in OrgEdges(event, orgs) <==> exists i :: 0 <= i < |orgs| && e == EdgeId(event, orgs[i].0, orgs[i].1)
  {
    if i :| 0 <= i < |orgs| && e == EdgeId(event, orgs[i].0, orgs[i].1) { assert OrgEdges(event, orgs)[i] == e; }
  }

  lemma InPersonEdges(event: string, people: seq<Mention>, e: string)
    ensures e in PersonEdges(event, people)
            <==> exists i :: 0 <= i < |people| && e == EdgeId(PersonNode(people[i].key), event, people[i].role)
  {
    if i :| 0 <= i < |people| && e == EdgeId(PersonNode(people[i].key), event, people[i].role) {
      assert PersonEdges(event, people)[i] == e;
    }
  }

  /** Different things, under names of their own kind. */
  ghost predicate Proper(n: Neighbours) {
    && (forall i :: 0 <= i < |n.told| ==> n.told[i] >= 0) && Distinct(n.told)
    && (forall i :: 0 <= i < |n.legal| ==> n.legal[i] != [] && n.legal[i][0] == 'a') && Distinct(n.legal)
    && (forall i :: 0 <= i < |n.orgs| ==>
          n.orgs[i].0 != [] && n.orgs[i].0[0] == 'o' && n.orgs[i].1 in {"court", "authority"})
    && (forall i, j :: 0 <= i < j < |n.orgs| ==> n.orgs[i].0 != n.orgs[j].0)
    && (forall i :: 0 <= i < |n.people| ==> '>' !in n.people[i].role)
    && (forall i, j :: 0 <= i < j < |n.people| ==> n.people[i].key != n.people[j].key)
  }

  lemma OrgEdgesDiffer(event: string, a: (string, Role), b: (string, Role))
    requires a.1 in {"court", "authority"} && b.1 in {"court", "authority"} && a.0 != b.0
    ensures EdgeId(event, a.0, a.1) != EdgeId(event, b.0, b.1)
  {
    var s, t := EdgeId(event, a.0, a.1), EdgeId(event, b.0, b.1);
    if a.1 == b.1 {
      if s == t { OutgoingEdgesDiffer(event, a.0, b.0, a.1); }
    } else {
      assert s[|s| - 1] == a.1[|a.1| - 1] && t[|t| - 1] == b.1[|b.1| - 1];
    }
  }

  lemma KindsDistinct(id: nat, n: Neighbours)
    requires Proper(n)
    ensures Distinct(PublicationEdges(EventNode(id), n.told))
    ensures Distinct(ArticleEdges(EventNode(id), n.legal))
    ensures Distinct(OrgEdges(EventNode(id), n.orgs))
    ensures Distinct(PersonEdges(EventNode(id), n.people))
  {
    var event := EventNode(id);
    forall i, j | 0 <= i < j < |n.told|
      ensures EdgeId(event, PublicationNode(n.told[i]), "evidence") != EdgeId(event, PublicationNode(n.told[j]), "evidence")
    {
      if EdgeId(event, PublicationNode(n.told[i]), "evidence") == EdgeId(event, PublicationNode(n.told[j]), "evidence") {
        OutgoingEdgesDiffer(event, PublicationNode(n.told[i]), PublicationNode(n.told[j]), "evidence");
        PublicationNodesDiffer(n.told[i], n.told[j]);
      }
    }
    forall i, j | 0 <= i < j < |n.legal|
      ensures EdgeId(event, n.legal[i], "legal_basis") != EdgeId(event, n.legal[j], "legal_basis")
    {
      if EdgeId(event, n.legal[i], "legal_basis") == EdgeId(event, n.legal[j], "legal_basis") {
        OutgoingEdgesDiffer(event, n.legal[i], n.legal[j], "legal_basis");
      }
    }
    forall i, j | 0 <= i < j < |n.orgs|
      ensures EdgeId(event, n.orgs[i].0, n.orgs[i].1) != EdgeId(event, n.orgs[j].0, n.orgs[j].1)
    {
      OrgEdgesDiffer(event, n.orgs[i], n.orgs[j]);
    }
    forall i, j | 0 <= i < j < |n.people|
      ensures PersonEdges(event, n.people)[i] != PersonEdges(event, n.people)[j]
    {
      if PersonEdges(event, n.people)[i] == PersonEdges(event, n.people)[j] {
        IncomingEdgesDiffer(id, n.people[i].key, n.people[i].role, n.people[j].key, n.people[j].role);
      }
    }
  }


  lemma {:induction false} AppendDistinct<T>(a: seq<T>, b: seq<T>)
    requires Distinct(a) && Distinct(b)
    requires forall i, j :: 0 <= i < |a| && 0 <= j < |b| ==> a[i] != b[j]
    ensures Distinct(a + b)
  {
  }

  lemma EdgesDiffer(id: nat, n: Neighbours)
    requires Proper(n)
    ensures Distinct(EdgesOf(EventNode(id), n))
  {
    var event := EventNode(id);
    var told, legal := PublicationEdges(event, n.told), ArticleEdges(event, n.legal);
    var orgs, people := OrgEdges(event, n.orgs), PersonEdges(event, n.people);
    KindsDistinct(id, n);
    assert event[0] == 'e';
    assert forall i :: 0 <= i < |told| ==> told[i][|event| + 1] == 'p' && told[i][0] == 'e';
    assert forall i :: 0 <= i < |legal| ==> legal[i][|event| + 1] == 'a' && legal[i][0] == 'e';
    assert forall i :: 0 <= i < |orgs| ==> orgs[i][|event| + 1] == 'o' && orgs[i][0] == 'e';
    assert forall i :: 0 <= i < |people| ==> people[i][0] == 'p';
    AppendDistinct(told, legal);
    AppendDistinct(told + legal, orgs);
    AppendDistinct(told + legal + orgs, people);
  }

  // Drawing

  ghost predicate Articles(told: seq<Id>) {
    Distinct(told) && forall i :: 0 <= i < |told| ==> told[i] >= 0
  }

  /** Each once, in the order first met. */
  ghost function Firsts(articles: seq<Id>): seq<Id> {
    if articles == [] then [] else Once(Firsts(articles[..|articles| - 1]), articles[|articles| - 1])
  }

  ghost predicate MetBefore(articles: seq<Id>, a: Id, b: Id) {
    exists k :: 0 <= k < |articles| && articles[k] == a && b !in articles[..k + 1]
  }

  lemma MetStays(articles: seq<Id>, more: Id, a: Id, b: Id)
    requires MetBefore(articles, a, b)
    ensures MetBefore(articles + [more], a, b)
  {
    var k :| 0 <= k < |articles| && articles[k] == a && b !in articles[..k + 1];
    assert (articles + [more])[..k + 1] == articles[..k + 1] && (articles + [more])[k] == a;
  }

  lemma MetLast(articles: seq<Id>, more: Id, a: Id)
    requires a in articles && more !in articles
    ensures MetBefore(articles + [more], a, more)
  {
    var k :| 0 <= k < |articles| && articles[k] == a;
    assert (articles + [more])[..k + 1] == articles[..k + 1] && (articles + [more])[k] == a;
  }

  lemma {:induction false} FirstsAreFirst(articles: seq<Id>)
    ensures Distinct(Firsts(articles)) && forall a :: a in Firsts(articles) <==> a in articles
    ensures forall i, j :: 0 <= i < j < |Firsts(articles)| ==> MetBefore(articles, Firsts(articles)[i], Firsts(articles)[j])
  {
    if articles != [] {
      var before, last := articles[..|articles| - 1], articles[|articles| - 1];
      var told := Firsts(before);
      FirstsAreFirst(before);
      assert articles == before + [last];
      forall i, j | 0 <= i < j < |Firsts(articles)|
        ensures MetBefore(articles, Firsts(articles)[i], Firsts(articles)[j])
      {
        if j < |told| { MetStays(before, last, told[i], told[j]); } else { MetLast(before, last, told[i]); }
      }
    }
  }

  /** The publications that tell the event, each once, in the order of the reports. */
  method Publications(articles: seq<Id>) returns (told: seq<Id>)
    requires forall i :: 0 <= i < |articles| ==> articles[i] >= 0
    ensures told == Firsts(articles) && Articles(told)
  {
    var dict: Dict<Id, ()> := Empty();
    for i := 0 to |articles|
      invariant dict.Valid()
      invariant dict.keys == Firsts(articles[..i])
    {
      assert articles[..i + 1][..i] == articles[..i];
      dict := dict.SetDefault(articles[i], ());
    }
    assert articles[..|articles|] == articles;
    told := dict.keys;
    FirstsAreFirst(articles);
    forall i | 0 <= i < |told|
      ensures told[i] >= 0
    {
      assert told[i] in Firsts(articles) && told[i] in articles;
    }
  }

  lemma PublicationsDiffer(id: nat, told: seq<Id>)
    requires Articles(told)
    ensures Distinct(PublicationEdges(EventNode(id), told))
  {
    KindsDistinct(id, Neighbours(told, [], [], []));
  }

  method DrawPublications(graph: Graph, id: nat, told: seq<Id>)
    requires graph.Closed() && EventNode(id) in graph.nodes.items && graph.edges.keys == []
    requires Articles(told)
    modifies graph`nodes, graph`edges
    ensures graph.Closed() && EventNode(id) in graph.nodes.items
    ensures graph.edges.keys == PublicationEdges(EventNode(id), told)
    ensures graph.nodes.items.Keys == old(graph.nodes.items.Keys) + Members(PublicationNodes(told))
    ensures Keeps(old(graph.nodes.items), graph.nodes.items)
  {
    PublicationsDiffer(id, told);
    DrawEvidence(graph, EventNode(id), told);
  }

  method DrawEvidence(graph: Graph, event: string, told: seq<Id>)
    requires graph.Closed() && event in graph.nodes.items && graph.edges.keys == []
    requires Articles(told) && Distinct(PublicationEdges(event, told))
    modifies graph`nodes, graph`edges
    ensures graph.Closed() && event in graph.nodes.items
    ensures graph.edges.keys == PublicationEdges(event, told)
    ensures graph.nodes.items.Keys == old(graph.nodes.items.Keys) + Members(PublicationNodes(told))
    ensures Keeps(old(graph.nodes.items), graph.nodes.items)
  {
    ghost var plan := Plan([], graph.nodes.items, PublicationEdges(event, told), PublicationNodes(told));
    assert [] + plan.edges == plan.edges;
    NothingDrawn(graph, plan);
    for i := 0 to |told|
      invariant Drew(graph, plan, i)
    {
      PublicationFits(told[i]);
      Attach(graph, event, PublicationNode(told[i]), "publication", "evidence", plan, i);
    }
    AllDrawn(graph, plan);
  }

  ghost predicate ArticleNodes(legal: seq<string>) {
    Distinct(legal) && forall i :: 0 <= i < |legal| ==> legal[i] != [] && legal[i][0] == 'a'
  }

  lemma {:induction false} LegalAreArticles(ms: seq<Mention>)
    ensures ArticleNodes(LegalOf(ms))
  {
    if ms != [] { LegalAreArticles(ms[..|ms| - 1]); }
  }

  lemma NextArticleIsNew(id: nat, told: seq<Id>, legal: seq<string>, node: string)
    requires Articles(told) && ArticleNodes(legal + [node])
    ensures EdgeId(EventNode(id), node, "legal_basis")
            !in PublicationEdges(EventNode(id), told) + ArticleEdges(EventNode(id), legal)
    ensures ArticleEdges(EventNode(id), legal + [node])
            == ArticleEdges(EventNode(id), legal) + [EdgeId(EventNode(id), node, "legal_basis")]
  {
    var event, all := EventNode(id), legal + [node];
    var n := Neighbours(told, all, [], []);
    EdgesDiffer(id, n);
    assert EdgesOf(event, n) == PublicationEdges(event, told) + ArticleEdges(event, all);
    NextIsNew(PublicationEdges(event, told), ArticleEdges(event, all), |legal|);
    assert ArticleEdges(event, all)[..|legal|] == ArticleEdges(event, legal);
  }

  lemma OldArticleIsThere(event: string, legal: seq<string>, node: string)
    requires node in legal
    ensures EdgeId(event, node, "legal_basis") in ArticleEdges(event, legal)
  {
    var k :| 0 <= k < |legal| && legal[k] == node;
    assert ArticleEdges(event, legal)[k] == EdgeId(event, node, "legal_basis");
  }

  ghost function SoFar(id: nat, told: seq<Id>, legal: seq<string>): seq<string>
    requires forall i :: 0 <= i < |told| ==> told[i] >= 0
  {
    PublicationEdges(EventNode(id), told) + ArticleEdges(EventNode(id), legal)
  }

  lemma NextArticle(id: nat, told: seq<Id>, legal: seq<string>, node: string)
    requires Articles(told) && ArticleNodes(Once(legal, node))
    ensures
      var edge := EdgeId(EventNode(id), node, "legal_basis");
      SoFar(id, told, Once(legal, node))
      == if edge in SoFar(id, told, legal) then SoFar(id, told, legal) else SoFar(id, told, legal) + [edge]
  {
    if node in legal {
      OldArticleIsThere(EventNode(id), legal, node);
    } else {
      NextArticleIsNew(id, told, legal, node);
    }
  }

  /** `head.upper() == "УК"`: a Criminal Code, however its name is cased. */
  predicate IsCriminal(head: string) { head == "УК" || head == "Ук" || head == "уК" || head == "ук" }

  function ArticleKind(m: Mention): string { if IsCriminal(m.head) then "criminal_article" else "administrative_article" }

  /** The type of each article: that of the mention first to name it. */
  ghost function LegalKinds(ms: seq<Mention>): map<string, string> { Collected(ms, LegalKey, ArticleKind).items }

  ghost predicate HasKind(nodes: map<string, Node>, id: string, kind: string) { id in nodes && nodes[id].kind == kind }

  ghost predicate ArticlesTyped(nodes: map<string, Node>, kinds: map<string, string>) {
    forall x {:trigger kinds[x]} :: x in kinds ==> HasKind(nodes, x, kinds[x])
  }

  lemma KindsStay(before: map<string, Node>, nodes: map<string, Node>, kinds: map<string, string>)
    requires ArticlesTyped(before, kinds) && Keeps(before, nodes)
    ensures ArticlesTyped(nodes, kinds)
  {
    forall x | x in kinds
      ensures HasKind(nodes, x, kinds[x])
    {
      assert HasKind(before, x, kinds[x]);
      assert before[x].kind == kinds[x];
    }
  }

  lemma KindsNext(
    before: map<string, Node>, nodes: map<string, Node>, kinds: map<string, string>, id: string, kind: string)
    requires ArticlesTyped(before, kinds) && Keeps(before, nodes) && id in nodes
    requires id !in kinds ==> nodes[id].kind == kind
    ensures ArticlesTyped(nodes, if id in kinds then kinds else kinds[id := kind])
  {
    KindsStay(before, nodes, kinds);
    assert forall x :: x in kinds ==> HasKind(nodes, x, kinds[x]);
  }

  lemma LegalIff(m: Mention)
    ensures NamesArticle(m) <==> LegalKey(m).Some?
    ensures NamesArticle(m) ==> LegalKey(m) == Some(ArticleNode(m.head, m.article))
  {
  }

  lemma KindsOfNext(before: seq<Mention>, m: Mention)
    ensures !NamesArticle(m) ==> LegalKinds(before + [m]) == LegalKinds(before) && LegalOf(before + [m]) == LegalOf(before)
    ensures NamesArticle(m) ==>
              var node := ArticleNode(m.head, m.article);
              LegalKinds(before + [m])
              == if node in LegalKinds(before) then LegalKinds(before) else LegalKinds(before)[node := ArticleKind(m)]
    ensures NamesArticle(m) ==> LegalOf(before + [m]) == Once(LegalOf(before), ArticleNode(m.head, m.article))
  {
    assert (before + [m])[..|before|] == before;
    LegalIff(m);
  }

  /** The legal reference of one mention: its node and its edge, unless already drawn. */
  method DrawArticle(graph: Graph, id: nat, node: string, kind: string, ghost told: seq<Id>, ghost legal: seq<string>)
    requires graph.Closed() && EventNode(id) in graph.nodes.items
    requires Articles(told) && ArticleNodes(Once(legal, node)) && KindFits(node, kind)
    requires graph.edges.keys == SoFar(id, told, legal)
    modifies graph`nodes, graph`edges
    ensures graph.Closed() && EventNode(id) in graph.nodes.items
    ensures graph.edges.keys == SoFar(id, told, Once(legal, node))
    ensures graph.nodes.items.Keys == old(graph.nodes.items.Keys) + {node}
    ensures Keeps(old(graph.nodes.items), graph.nodes.items)
    ensures node !in old(graph.nodes.items) ==> graph.nodes.items[node].kind == kind
  {
    NextArticle(id, told, legal, node);
    graph.AddNode(node, kind);
    graph.AddEdge(EventNode(id), node, "legal_basis");
  }

  /** What is drawn after some mentions, of `nodes` and the publications. */
  ghost predicate DrewMentions(graph: Graph, id: nat, told: seq<Id>, base: map<string, Node>, ms: seq<Mention>)
    requires forall i :: 0 <= i < |told| ==> told[i] >= 0
    reads graph`nodes, graph`edges
  {
    && graph.Closed()
    && graph.edges.keys == SoFar(id, told, LegalOf(ms))
    && graph.nodes.items.Keys == base.Keys + Members(LegalOf(ms))
    && Keeps(base, graph.nodes.items) && ArticlesTyped(graph.nodes.items, LegalKinds(ms))
  }

  /** No article is drawn before the mentions are read. */
  ghost predicate WithoutArticles(base: map<string, Node>) { forall x :: x in base ==> !("article:" <= x) }

  method DrawMention(
    graph: Graph, id: nat, m: Mention, ghost told: seq<Id>, ghost base: map<string, Node>, ghost before: seq<Mention>)
    requires Articles(told) && EventNode(id) in base && WithoutArticles(base)
    requires DrewMentions(graph, id, told, base, before)
    modifies graph`nodes, graph`edges
    ensures DrewMentions(graph, id, told, base, before + [m])
  {
    KindsOfNext(before, m);
    if NamesArticle(m) {
      var node, kind := ArticleNode(m.head, m.article), ArticleKind(m);
      ghost var nodes := graph.nodes.items;
      LegalAreArticles(before + [m]);
      MembersOnce(LegalOf(before), node);
      ArticleFits(m.head, m.article, kind);
      DrawnIffCollected(before, base, m);
      DrawArticle(graph, id, node, kind, told, LegalOf(before));
      KindsNext(nodes, graph.nodes.items, LegalKinds(before), node, kind);
    }
  }

  /** An article is drawn already exactly when a mention before names it. */
  lemma DrawnIffCollected(before: seq<Mention>, base: map<string, Node>, m: Mention)
    requires WithoutArticles(base)
    ensures
      var node := ArticleNode(m.head, m.article);
      node in base.Keys + Members(LegalOf(before)) <==> node in LegalKinds(before)
  {
    CollectedInOrder(before, LegalKey, ArticleKind);
    ArticlesInOrder(before);
    StartsAsArticle(m);
  }

  lemma StartsAsArticle(m: Mention)
    ensures "article:" <= ArticleNode(m.head, m.article)
  {
    assert ArticleNode(m.head, m.article) == "article:" + (m.head + ":" + m.article);
  }

  lemma NoArticleYet(id: nat, told: seq<Id>, nodes: map<string, Node>)
    requires Articles(told) && nodes.Keys == {EventNode(id)} + Members(PublicationNodes(told))
    ensures WithoutArticles(nodes)
  {
    forall x | x in nodes
      ensures !("article:" <= x)
    {
      assert EventNode(id)[0] == 'e';
      if x != EventNode(id) {
        var i :| 0 <= i < |told| && PublicationNodes(told)[i] == x;
        assert PublicationNode(told[i])[0] == 'p';
      }
    }
  }

  lemma TookNext(ms: seq<Mention>, i: nat)
    requires i < |ms|
    ensures ms[..i + 1] == ms[..i] + [ms[i]] && Took(ms[..i + 1]) == Take(Took(ms[..i]), ms[i])
  {
    assert ms[..i + 1][..i] == ms[..i];
  }

  /** The loop over the mentions: articles are drawn at once, the rest gathered. */
  method ReadMentions(graph: Graph, id: nat, ms: seq<Mention>, ghost told: seq<Id>) returns (g: Gathering)
    requires graph.Closed() && EventNode(id) in graph.nodes.items
    requires Articles(told) && graph.edges.keys == PublicationEdges(EventNode(id), told)
    requires WithoutArticles(graph.nodes.items)
    modifies graph`nodes, graph`edges
    ensures graph.Closed() && EventNode(id) in graph.nodes.items
    ensures g == Took(ms)
    ensures graph.edges.keys == SoFar(id, told, LegalOf(ms))
    ensures graph.nodes.items.Keys == old(graph.nodes.items.Keys) + Members(LegalOf(ms))
    ensures Keeps(old(graph.nodes.items), graph.nodes.items) && ArticlesTyped(graph.nodes.items, LegalKinds(ms))
  {
    g := Gathering(Empty(), {}, Empty());
    ghost var base := graph.nodes.items;
    assert ms[..0] == [];
    for i := 0 to |ms|
      invariant g == Took(ms[..i]) && DrewMentions(graph, id, told, base, ms[..i])
    {
      TookNext(ms, i);
      DrawMention(graph, id, ms[i], told, base, ms[..i]);
      g := Take(g, ms[i]);
    }
    assert ms[..|ms|] == ms;
  }

  method DrawOrgs(graph: Graph, id: nat, orgs: seq<(string, Role)>)
    requires graph.Closed() && EventNode(id) in graph.nodes.items
    requires Distinct(graph.edges.keys + OrgEdges(EventNode(id), orgs))
    requires forall i :: 0 <= i < |orgs| ==> KindFits(orgs[i].0, orgs[i].1)
    modifies graph`nodes, graph`edges
    ensures graph.Closed() && EventNode(id) in graph.nodes.items
    ensures graph.edges.keys == old(graph.edges.keys) + OrgEdges(EventNode(id), orgs)
    ensures graph.nodes.items.Keys == old(graph.nodes.items.Keys) + Members(OrgNodes(orgs))
    ensures Keeps(old(graph.nodes.items), graph.nodes.items)
  {
    ghost var plan := Plan(graph.edges.keys, graph.nodes.items, OrgEdges(EventNode(id), orgs), OrgNodes(orgs));
    NothingDrawn(graph, plan);
    for i := 0 to |orgs|
      invariant Drew(graph, plan, i)
    {
      Attach(graph, EventNode(id), orgs[i].0, orgs[i].1, orgs[i].1, plan, i);
    }
    AllDrawn(graph, plan);
  }

  /** The next person: their node, and the edge from it to the centre. */
  method AttachPerson(graph: Graph, center: string, person: string, role: string, ghost plan: Plan, ghost i: nat)
    requires OwnEdges(plan) && i < |plan.edges| && center in plan.base && Drew(graph, plan, i)
    requires plan.ends[i] == person && plan.edges[i] == EdgeId(person, center, role) && KindFits(person, "person")
    modifies graph`nodes, graph`edges
    ensures Drew(graph, plan, i + 1)
  {
    NextDrawn(plan, i);
    graph.AddNode(person, "person");
    graph.AddEdge(person, center, role);
  }

  method DrawPeople(graph: Graph, id: nat, people: seq<Mention>)
    requires graph.Closed() && EventNode(id) in graph.nodes.items
    requires Distinct(graph.edges.keys + PersonEdges(EventNode(id), people))
    modifies graph`nodes, graph`edges
    ensures graph.Closed() && EventNode(id) in graph.nodes.items
    ensures graph.edges.keys == old(graph.edges.keys) + PersonEdges(EventNode(id), people)
    ensures graph.nodes.items.Keys == old(graph.nodes.items.Keys) + Members(PersonNodes(people))
    ensures Keeps(old(graph.nodes.items), graph.nodes.items)
  {
    ghost var plan := Plan(graph.edges.keys, graph.nodes.items, PersonEdges(EventNode(id), people), PersonNodes(people));
    NothingDrawn(graph, plan);
    for i := 0 to |people|
      invariant Drew(graph, plan, i)
    {
      PersonFits(people[i].key);
      AttachPerson(graph, EventNode(id), PersonNode(people[i].key), people[i].role, plan, i);
    }
    AllDrawn(graph, plan);
  }

  lemma EndsInTurn(event: string, n: Neighbours)
    requires forall i :: 0 <= i < |n.told| ==> n.told[i] >= 0
    ensures {event} + Members(PublicationNodes(n.told)) + Members(n.legal) + Members(OrgNodes(n.orgs)) + Members(PersonNodes(n.people))
            == {event} + EndsOf(n)
  {
  }

  /** What was gathered, after the publications and articles of `n`. */
  method DrawGathered(graph: Graph, id: nat, ghost n: Neighbours, orgs: seq<(string, Role)>, people: seq<Mention>)
    requires graph.Closed() && EventNode(id) in graph.nodes.items
    requires forall i :: 0 <= i < |n.told| ==> n.told[i] >= 0
    requires n.orgs == orgs && n.people == people && Distinct(EdgesOf(EventNode(id), n))
    requires forall i :: 0 <= i < |orgs| ==> KindFits(orgs[i].0, orgs[i].1)
    requires graph.edges.keys == SoFar(id, n.told, n.legal)
    requires graph.nodes.items.Keys == {EventNode(id)} + Members(PublicationNodes(n.told)) + Members(n.legal)
    modifies graph`nodes, graph`edges
    ensures graph.Closed() && EventNode(id) in graph.nodes.items
    ensures graph.edges.keys == EdgesOf(EventNode(id), n)
    ensures graph.nodes.items.Keys == {EventNode(id)} + EndsOf(n)
    ensures Keeps(old(graph.nodes.items), graph.nodes.items)
  {
    PrefixDistinct(graph.edges.keys + OrgEdges(EventNode(id), orgs), PersonEdges(EventNode(id), people));
    DrawOrgs(graph, id, orgs);
    DrawPeople(graph, id, people);
    EndsInTurn(EventNode(id), n);
  }

  lemma PrefixDistinct<T>(a: seq<T>, b: seq<T>)
    requires Distinct(a + b)
    ensures Distinct(a)
  {
    assert forall i :: 0 <= i < |a| ==> a[i] == (a + b)[i];
  }

  // The whole answer

  /** `key` names one person of step 3, and a role is an identifier. */
  ghost predicate PeopleAreNamed(ms: seq<Mention>) {
    && (forall m :: m in ms ==> '>' !in m.role)
    && (forall a, b :: a in ms && b in ms && NamesPerson(a) && NamesPerson(b) && a.group != b.group ==> a.key != b.key)
  }

  function Pairs(orgs: Dict<string, Role>): (pairs: seq<(string, Role)>)
    requires orgs.Valid()
  {
    seq(|orgs.keys|, i requires 0 <= i < |orgs.keys| => (orgs.keys[i], orgs.items[orgs.keys[i]]))
  }

  function FirstOf<T>(s: seq<T>, limit: nat): seq<T> { s[..Min(|s|, limit)] }

  /** What the limits let through. */
  ghost function Drawn(told: seq<Id>, ms: seq<Mention>): Neighbours {
    var g := Took(ms);
    Neighbours(
      FirstOf(told, EVENT_PUBLICATIONS), LegalOf(ms),
      FirstOf(Pairs(g.orgs), EVENT_NEIGHBOURS), FirstOf(g.people.Values(), EVENT_PEOPLE))
  }

  lemma OrgsAreProper(ms: seq<Mention>, orgs: Dict<string, Role>, i: nat)
    requires OrgsRead(ms, orgs) && i < |orgs.keys|
    ensures Pairs(orgs)[i].0 != [] && Pairs(orgs)[i].0[0] == 'o' && Pairs(orgs)[i].1 in {"court", "authority"}
  {
    var id := orgs.keys[i];
    assert id in orgs.items;
    var m :| m in ms && NamesOrg(m) && id == OrgNode(m.role, m.folded) && orgs.items[id] == m.role;
  }

  lemma PeopleAreProper(ms: seq<Mention>, people: Dict<Group, Mention>, i: nat, j: nat)
    requires PeopleRead(ms, people) && PeopleAreNamed(ms) && i < |people.keys| && j < |people.keys|
    ensures '>' !in people.Values()[i].role
    ensures i != j ==> people.Values()[i].key != people.Values()[j].key
  {
    var g, h := people.keys[i], people.keys[j];
    assert g in people.items && h in people.items;
    var a: nat :| FirstNames(ms, a, g) && ms[a] == people.items[g];
    var b: nat :| FirstNames(ms, b, h) && ms[b] == people.items[h];
    assert ms[a] in ms && ms[b] in ms;
    if i != j { assert g != h; }
  }

  lemma DrawnIsProper(told: seq<Id>, ms: seq<Mention>)
    requires Articles(told) && PeopleAreNamed(ms)
    ensures Proper(Drawn(told, ms))
  {
    var n := Drawn(told, ms);
    TookReads(ms);
    LegalAreArticles(ms);
    forall i | 0 <= i < |n.orgs|
      ensures n.orgs[i].0 != [] && n.orgs[i].0[0] == 'o' && n.orgs[i].1 in {"court", "authority"}
    {
      OrgsAreProper(ms, Took(ms).orgs, i);
    }
    forall i | 0 <= i < |n.people|
      ensures '>' !in n.people[i].role
    {
      PeopleAreProper(ms, Took(ms).people, i, i);
    }
    forall i, j | 0 <= i < j < |n.people|
      ensures n.people[i].key != n.people[j].key
    {
      PeopleAreProper(ms, Took(ms).people, i, j);
    }
  }

  lemma DrawnOrgsFit(told: seq<Id>, ms: seq<Mention>)
    ensures
      var orgs := Drawn(told, ms).orgs;
      forall i :: 0 <= i < |orgs| ==> KindFits(orgs[i].0, orgs[i].1)
  {
    var orgs := Drawn(told, ms).orgs;
    TookReads(ms);
    forall i | 0 <= i < |orgs|
      ensures KindFits(orgs[i].0, orgs[i].1)
    {
      var id := Took(ms).orgs.keys[i];
      assert id in Took(ms).orgs.items;
      var m :| m in ms && NamesOrg(m) && id == OrgNode(m.role, m.folded) && Took(ms).orgs.items[id] == m.role;
      OrgFits(m.role, m.folded);
    }
  }

  lemma DrawnDiffer(id: nat, told: seq<Id>, ms: seq<Mention>)
    requires Articles(told) && PeopleAreNamed(ms)
    ensures Distinct(EdgesOf(EventNode(id), Drawn(told, ms)))
  {
    DrawnIsProper(told, ms);
    EdgesDiffer(id, Drawn(told, ms));
  }

  /** The cuts after the publications'. */
  ghost function LaterCuts(event: string, ms: seq<Mention>): seq<Cut> {
    CutOf(event, "person", |Took(ms).people.keys|, EVENT_PEOPLE)
    + CutOf(event, "unresolved_person", |Took(ms).unresolved|, 0)
    + CutOf(event, "organization", |Took(ms).orgs.keys|, EVENT_NEIGHBOURS)
  }

  /** How many things of a kind the answer counts instead of drawing them. */
  ghost function Counted(more: seq<Cut>, kind: string): int {
    if more == [] then 0
    else Counted(more[..|more| - 1], kind) + if more[|more| - 1].kind == kind then more[|more| - 1].count else 0
  }

  /**
   What is drawn: the first ten publications; the first twenty people and organisations, in the
   order the mentions first name them; every article. What is drawn and what is counted is all of
   each kind, and no name without a person is drawn.
   */
  ghost predicate DrawsPlaces(
    n: Neighbours, more: seq<Cut>, told: seq<Id>, ms: seq<Mention>, people: seq<nat>, orgs: seq<nat>, legal: seq<nat>)
  {
    && n.told == (if |told| <= 10 then told else told[..10])
    && |n.people| == (if |people| <= 20 then |people| else 20)
    && |n.orgs| == (if |orgs| <= 20 then |orgs| else 20)
    && |n.legal| == |legal|
    && (forall i :: 0 <= i < |n.people| ==> people[i] < |ms| && n.people[i] == ms[people[i]])
    && (forall i :: 0 <= i < |n.orgs| ==> orgs[i] < |ms| && OrgAt(ms[orgs[i]], n.orgs[i]))
    && (forall i :: 0 <= i < |n.legal| ==> legal[i] < |ms| && ArticleAt(ms[legal[i]], n.legal[i]))
    && Counted(more, "publication") + |n.told| == |told|
    && Counted(more, "person") + |n.people| == |people|
    && Counted(more, "organization") + |n.orgs| == |orgs|
    && Counted(more, "unresolved_person") == |set m | m in ms && m.isPerson && m.group.None? :: m.folded|
  }

  ghost predicate OrgAt(m: Mention, org: (string, Role)) {
    org.0 == "org:" + m.role + ":" + m.folded && org.1 == m.role
  }

  ghost predicate ArticleAt(m: Mention, node: string) { node == "article:" + m.head + ":" + m.article }

  ghost predicate DrawsAll(n: Neighbours, more: seq<Cut>, told: seq<Id>, ms: seq<Mention>) {
    exists people, orgs, legal ::
      && ListsFirst(people, ms, PersonKey) && ListsFirst(orgs, ms, OrgKey) && ListsFirst(legal, ms, LegalKey)
      && DrawsPlaces(n, more, told, ms, people, orgs, legal)
  }

  lemma {:induction false} CountedJoins(a: seq<Cut>, b: seq<Cut>, kind: string)
    ensures Counted(a + b, kind) == Counted(a, kind) + Counted(b, kind)
  {
    if b == [] {
      assert a + b == a;
    } else {
      assert (a + b)[..|a + b| - 1] == a + b[..|b| - 1];
      CountedJoins(a, b[..|b| - 1], kind);
    }
  }

  lemma CountedCut(node: string, cutKind: string, total: nat, limit: nat, kind: string)
    ensures Counted(CutOf(node, cutKind, total, limit), kind) == if cutKind == kind && total > limit then total - limit else 0
  {
    var cut := CutOf(node, cutKind, total, limit);
    if total > limit { assert cut[..0] == []; }
  }

  ghost function AllCuts(event: string, told: seq<Id>, ms: seq<Mention>): seq<Cut> {
    CutOf(event, "publication", |told|, EVENT_PUBLICATIONS) + LaterCuts(event, ms)
  }

  lemma CountedInAll(event: string, told: seq<Id>, ms: seq<Mention>, kind: string)
    ensures
      var g := Took(ms);
      Counted(AllCuts(event, told, ms), kind)
      == Counted(CutOf(event, "publication", |told|, EVENT_PUBLICATIONS), kind)
         + Counted(CutOf(event, "person", |g.people.keys|, EVENT_PEOPLE), kind)
         + Counted(CutOf(event, "unresolved_person", |g.unresolved|, 0), kind)
         + Counted(CutOf(event, "organization", |g.orgs.keys|, EVENT_NEIGHBOURS), kind)
  {
    var g := Took(ms);
    var first := CutOf(event, "publication", |told|, EVENT_PUBLICATIONS);
    var people := CutOf(event, "person", |g.people.keys|, EVENT_PEOPLE);
    var names := CutOf(event, "unresolved_person", |g.unresolved|, 0);
    var orgs := CutOf(event, "organization", |g.orgs.keys|, EVENT_NEIGHBOURS);
    CountedJoins(first, people + names + orgs, kind);
    CountedJoins(people + names, orgs, kind);
    CountedJoins(people, names, kind);
  }

  lemma CountOfKind(event: string, told: seq<Id>, ms: seq<Mention>, kind: string)
    ensures
      var g := Took(ms);
      Counted(AllCuts(event, told, ms), kind)
      == (if "publication" == kind && |told| > 10 then |told| - 10 else 0)
         + (if "person" == kind && |g.people.keys| > 20 then |g.people.keys| - 20 else 0)
         + (if "unresolved_person" == kind && |g.unresolved| > 0 then |g.unresolved| - 0 else 0)
         + (if "organization" == kind && |g.orgs.keys| > 20 then |g.orgs.keys| - 20 else 0)
  {
    var g := Took(ms);
    CountedInAll(event, told, ms, kind);
    CountedCut(event, "publication", |told|, EVENT_PUBLICATIONS, kind);
    CountedCut(event, "person", |g.people.keys|, EVENT_PEOPLE, kind);
    CountedCut(event, "unresolved_person", |g.unresolved|, 0, kind);
    CountedCut(event, "organization", |g.orgs.keys|, EVENT_NEIGHBOURS, kind);
  }

  lemma PlacesOfDrawn(told: seq<Id>, ms: seq<Mention>)
    ensures
      var n := Drawn(told, ms);
      var people, orgs, legal := FirstPlaces(ms, PersonKey), FirstPlaces(ms, OrgKey), FirstPlaces(ms, LegalKey);
      && |Took(ms).people.keys| == |people| && |Took(ms).orgs.keys| == |orgs|
      && |n.people| == (if |people| <= 20 then |people| else 20)
      && |n.orgs| == (if |orgs| <= 20 then |orgs| else 20) && |n.legal| == |legal|
      && (forall i :: 0 <= i < |n.people| ==> people[i] < |ms| && n.people[i] == ms[people[i]])
      && (forall i :: 0 <= i < |n.orgs| ==> orgs[i] < |ms| && OrgAt(ms[orgs[i]], n.orgs[i]))
      && (forall i :: 0 <= i < |n.legal| ==> legal[i] < |ms| && ArticleAt(ms[legal[i]], n.legal[i]))
  {
    var n := Drawn(told, ms);
    TookCollects(ms);
    CollectedInOrder(ms, PersonKey, Whole);
    CollectedInOrder(ms, OrgKey, RoleIn);
    PlacesAscend(ms, PersonKey);
    PlacesAscend(ms, OrgKey);
    PlacesAscend(ms, LegalKey);
    ArticlesInOrder(ms);
    forall i | 0 <= i < |n.people|
      ensures n.people[i] == ms[FirstPlaces(ms, PersonKey)[i]]
    {
      PeopleInOrder(ms, i);
    }
    forall i | 0 <= i < |n.orgs|
      ensures OrgAt(ms[FirstPlaces(ms, OrgKey)[i]], n.orgs[i])
    {
      OrgsInOrder(ms, i);
    }
    forall i | 0 <= i < |n.legal|
      ensures ArticleAt(ms[FirstPlaces(ms, LegalKey)[i]], n.legal[i])
    {
      NamedAt(ms, LegalKey, i);
    }
  }

  /** What the limits let through, with what they count, is all there is, in the order of the text. */
  lemma DrawnIsAll(event: string, told: seq<Id>, ms: seq<Mention>)
    ensures DrawsAll(Drawn(told, ms), AllCuts(event, told, ms), told, ms)
  {
    var n, more := Drawn(told, ms), AllCuts(event, told, ms);
    var people, orgs, legal := FirstPlaces(ms, PersonKey), FirstPlaces(ms, OrgKey), FirstPlaces(ms, LegalKey);
    FirstPlacesAreFirst(ms, PersonKey);
    FirstPlacesAreFirst(ms, OrgKey);
    FirstPlacesAreFirst(ms, LegalKey);
    PlacesOfDrawn(told, ms);
    CountOfKind(event, told, ms, "publication");
    CountOfKind(event, told, ms, "person");
    CountOfKind(event, told, ms, "organization");
    CountOfKind(event, told, ms, "unresolved_person");
    UnresolvedAre(ms);
    assert DrawsPlaces(n, more, told, ms, people, orgs, legal);
  }

  /** An article is drawn as the Code of the mention first to name it is: criminal, or another. */
  ghost predicate ArticlesAsNamed(nodes: map<string, Node>, ms: seq<Mention>) {
    forall k: nat {:trigger FirstToName(ms, LegalKey, k)} :: FirstToName(ms, LegalKey, k) ==>
      HasKind(nodes, "article:" + ms[k].head + ":" + ms[k].article,
              if ms[k].head in {"УК", "Ук", "уК", "ук"} then "criminal_article" else "administrative_article")
  }

  lemma TypedAsNamed(nodes: map<string, Node>, ms: seq<Mention>)
    requires ArticlesTyped(nodes, LegalKinds(ms))
    ensures ArticlesAsNamed(nodes, ms)
  {
    forall k: nat | FirstToName(ms, LegalKey, k)
      ensures HasKind(nodes, "article:" + ms[k].head + ":" + ms[k].article, ArticleKind(ms[k]))
    {
      FirstIsPlace(ms, LegalKey, k);
      var i :| 0 <= i < |FirstPlaces(ms, LegalKey)| && FirstPlaces(ms, LegalKey)[i] == k;
      PlacesAscend(ms, LegalKey);
      NamedAt(ms, LegalKey, i);
      CollectedAt(ms, LegalKey, ArticleKind, i);
    }
  }

  method CountRest(graph: Graph, event: string, ghost ms: seq<Mention>, g: Gathering)
    requires g == Took(ms)
    modifies graph`more
    ensures graph.more == old(graph.more) + LaterCuts(event, ms)
  {
    graph.AddCut(event, "person", |g.people.keys| - EVENT_PEOPLE);
    graph.AddCut(event, "unresolved_person", |g.unresolved|);
    graph.AddCut(event, "organization", |g.orgs.keys| - EVENT_NEIGHBOURS);
  }

  /** What the mentions add to the publications already drawn. */
  method ExpandMentions(graph: Graph, id: nat, ghost told: seq<Id>, ms: seq<Mention>)
    requires graph.Closed() && EventNode(id) in graph.nodes.items
    requires Articles(told) && PeopleAreNamed(ms)
    requires graph.edges.keys == PublicationEdges(EventNode(id), FirstOf(told, EVENT_PUBLICATIONS))
    requires graph.nodes.items.Keys == {EventNode(id)} + Members(PublicationNodes(FirstOf(told, EVENT_PUBLICATIONS)))
    modifies graph`nodes, graph`edges, graph`more
    ensures graph.Closed() && EventNode(id) in graph.nodes.items
    ensures graph.edges.keys == EdgesOf(EventNode(id), Drawn(told, ms))
    ensures graph.nodes.items.Keys == {EventNode(id)} + EndsOf(Drawn(told, ms))
    ensures graph.more == old(graph.more) + LaterCuts(EventNode(id), ms)
    ensures ArticlesTyped(graph.nodes.items, LegalKinds(ms))
  {
    DrawnDiffer(id, told, ms);
    DrawnOrgsFit(told, ms);
    NoArticleYet(id, FirstOf(told, EVENT_PUBLICATIONS), graph.nodes.items);
    var g := ReadMentions(graph, id, ms, FirstOf(told, EVENT_PUBLICATIONS));
    ghost var nodes := graph.nodes.items;
    DrawGathered(graph, id, Drawn(told, ms),
                 FirstOf(Pairs(g.orgs), EVENT_NEIGHBOURS), FirstOf(g.people.Values(), EVENT_PEOPLE));
    KindsStay(nodes, graph.nodes.items, LegalKinds(ms));
    CountRest(graph, EventNode(id), ms, g);
  }

  /** The event's node, its publications up to the limit, and the count of the rest. */
  method DrawTelling(id: nat, articles: seq<Id>) returns (graph: Graph, told: seq<Id>)
    requires forall i :: 0 <= i < |articles| ==> articles[i] >= 0
    ensures fresh(graph) && graph.Closed() && EventNode(id) in graph.nodes.items
    ensures told == Firsts(articles) && Articles(told)
    ensures graph.edges.keys == PublicationEdges(EventNode(id), FirstOf(told, EVENT_PUBLICATIONS))
    ensures graph.nodes.items.Keys == {EventNode(id)} + Members(PublicationNodes(FirstOf(told, EVENT_PUBLICATIONS)))
    ensures graph.more == CutOf(EventNode(id), "publication", |told|, EVENT_PUBLICATIONS)
  {
    graph := new Graph();
    EventFits(id);
    graph.AddNode(EventNode(id), "event");
    told := Publications(articles);
    DrawPublications(graph, id, FirstOf(told, EVENT_PUBLICATIONS));
    graph.AddCut(EventNode(id), "publication", |told| - EVENT_PUBLICATIONS);
  }

  /**
   `expand_event`. Each publication, article, organisation and person is drawn by an edge of its
   own, the nodes are the event and the other ends of its edges, and what a limit leaves out is
   counted: nothing is lost to a name already taken.
   */
  method ExpandEvent(id: nat, articles: seq<Id>, ms: seq<Mention>) returns (graph: Graph, told: seq<Id>)
    requires forall i :: 0 <= i < |articles| ==> articles[i] >= 0
    requires PeopleAreNamed(ms)
    ensures fresh(graph) && graph.Closed() && EventNode(id) in graph.nodes.items
    ensures told == Firsts(articles) && Articles(told)
    ensures graph.edges.keys == EdgesOf(EventNode(id), Drawn(told, ms))
    ensures graph.nodes.items.Keys == {EventNode(id)} + EndsOf(Drawn(told, ms))
    ensures graph.more == AllCuts(EventNode(id), told, ms)
    ensures DrawsAll(Drawn(told, ms), graph.more, told, ms) && ArticlesAsNamed(graph.nodes.items, ms)
  {
    graph, told := DrawTelling(id, articles);
    ExpandMentions(graph, id, told, ms);
    DrawnIsAll(EventNode(id), told, ms);
    TypedAsNamed(graph.nodes.items, ms);
  }
}

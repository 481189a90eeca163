/**
 The names of nodes and edges, as the page and the server exchange them: which name opens
 what, and that no two things get one name. A graph drops what is already named, so a
 collision would silently lose an edge.
 */
module NodeIds {
  import opened Digits

  // The names

  function PersonNode(key: string): string { "person:" + key }
  function EventNode(id: nat): string { "event:" + Decimal(id) }
  function PublicationNode(article: nat): string { "publication:" + Decimal(article) }
  function OrgNode(role: string, folded: string): string { "org:" + role + ":" + folded }
  function ArticleNode(head: string, article: string): string { "article:" + head + ":" + article }
  function EdgeId(start: string, end: string, kind: string): string { start + ">" + end + ":" + kind }

  // What a name opens: `expand`

  datatype Request = OpenPerson(key: string) | OpenEvent(id: nat) | NotExpandable

  /** `node.partition(":")`, without the separator. */
  function Partition(s: string): (parts: (string, string))
    ensures ':' in s ==> s == parts.0 + ":" + parts.1 && ':' !in parts.0
    ensures ':' !in s ==> parts == (s, "")
  {
    if s == [] then ("", "")
    else if s[0] == ':' then ("", s[1..])
    else
      assert s == [s[0]] + s[1..];
      var rest := Partition(s[1..]);
      ([s[0]] + rest.0, rest.1)
  }

  /** At most nine digits: `[0-9]{1,9}`. */
  const MAX_EVENT_DIGITS := 9

  function Expand(node: string): Request {
    var parts := Partition(node);
    if parts.0 == "person" && parts.1 != [] then OpenPerson(parts.1)
    else if parts.0 == "event" && 1 <= |parts.1| <= MAX_EVENT_DIGITS && AllDigits(parts.1)
    then OpenEvent(Number(parts.1))
    else NotExpandable
  }

  lemma {:induction false} SplitAtFirst(c: char, a: string, b: string, x: string, y: string)
    requires a + [c] + b == x + [c] + y && c !in a && c !in x
    ensures a == x && b == y
  {
    var s, t := a + [c] + b, x + [c] + y;
    assert s[0] == if a == [] then c else a[0];
    assert t[0] == if x == [] then c else x[0];
    if a != [] && x != [] {
      assert s[1..] == a[1..] + [c] + b && t[1..] == x[1..] + [c] + y;
      SplitAtFirst(c, a[1..], b, x[1..], y);
      assert a == [a[0]] + a[1..] && x == [x[0]] + x[1..];
    } else {
      assert a == x;
      assert b == s[1..] && y == t[1..];
    }
  }

  lemma {:induction false} SplitAtLast(c: char, a: string, b: string, x: string, y: string)
    requires a + [c] + b == x + [c] + y && c !in b && c !in y
    ensures a == x && b == y
    decreases |b|
  {
    var s, t := a + [c] + b, x + [c] + y;
    var end := |s| - 1;
    assert s[end] == if b == [] then c else b[|b| - 1];
    assert t[end] == if y == [] then c else y[|y| - 1];
    if b != [] && y != [] {
      assert s[..end] == a + [c] + b[..|b| - 1] && t[..end] == x + [c] + y[..|y| - 1];
      SplitAtLast(c, a, b[..|b| - 1], x, y[..|y| - 1]);
      assert b == b[..|b| - 1] + [b[|b| - 1]] && y == y[..|y| - 1] + [y[|y| - 1]];
    } else {
      assert b == y;
      assert a == s[..end] && x == t[..end];
    }
  }

  lemma PartitionSplits(head: string, tail: string)
    requires ':' !in head
    ensures Partition(head + ":" + tail) == (head, tail)
  {
    var s := head + ":" + tail;
    assert s[|head|] == ':';
    var parts := Partition(s);
    SplitAtFirst(':', head, tail, parts.0, parts.1);
  }

  /** A drawn person always opens, under the very key the node was named by. */
  lemma PersonNodeOpens(key: string)
    requires key != []
    ensures Expand(PersonNode(key)) == OpenPerson(key)
  {
    assert PersonNode(key) == "person" + ":" + key;
    PartitionSplits("person", key);
  }

  /**
   A drawn event opens itself exactly while its id has at most nine digits. The node is
   always marked expandable, and the id column goes on to 2147483647: from 10^9 on the node
   the page shows is refused.
   */
  lemma EventNodeOpensIff(id: nat)
    ensures Expand(EventNode(id)) == OpenEvent(id) <==> id < 1_000_000_000
    ensures id >= 1_000_000_000 ==> Expand(EventNode(id)) == NotExpandable
  {
    assert EventNode(id) == "event" + ":" + Decimal(id);
    PartitionSplits("event", Decimal(id));
    NumberReadsDecimal(id);
    DecimalLength(id, MAX_EVENT_DIGITS);
    assert Power10(9) == 1_000_000_000;
  }

  // No two things get one name

  lemma DecimalIsInjective(a: nat, b: nat)
    requires Decimal(a) == Decimal(b)
    ensures a == b
  {
    NumberReadsDecimal(a);
    NumberReadsDecimal(b);
  }

  /** The edges of one person to two events. */
  lemma PersonEdgesDiffer(person: string, a: nat, roleA: string, b: nat, roleB: string)
    requires EdgeId(person, EventNode(a), roleA) == EdgeId(person, EventNode(b), roleB)
    ensures a == b
  {
    var head := person + ">event:";
    assert EdgeId(person, EventNode(a), roleA) == head + (Decimal(a) + [':'] + roleA);
    assert EdgeId(person, EventNode(b), roleB) == head + (Decimal(b) + [':'] + roleB);
    DropHead(head, Decimal(a) + [':'] + roleA, Decimal(b) + [':'] + roleB);
    SplitAtFirst(':', Decimal(a), roleA, Decimal(b), roleB);
    DecimalIsInjective(a, b);
  }

  lemma DropHead(head: string, a: string, b: string)
    requires head + a == head + b
    ensures a == b
  {
    assert a == (head + a)[|head|..];
    assert b == (head + b)[|head|..];
  }

  /** The edges of one event to two of its neighbours, of one kind. */
  lemma OutgoingEdgesDiffer(event: string, a: string, b: string, kind: string)
    requires EdgeId(event, a, kind) == EdgeId(event, b, kind)
    ensures a == b
  {
    var s, t := EdgeId(event, a, kind), EdgeId(event, b, kind);
    assert s[|event| + 1..|s| - |kind| - 1] == a;
    assert t[|event| + 1..|t| - |kind| - 1] == b;
  }

  lemma PublicationNodesDiffer(a: nat, b: nat)
    requires PublicationNode(a) == PublicationNode(b)
    ensures a == b
  {
    DropHead("publication:", Decimal(a), Decimal(b));
    DecimalIsInjective(a, b);
  }

  /** The edges of two people to one event: a role is an identifier, without the arrow. */
  lemma IncomingEdgesDiffer(event: nat, a: string, roleA: string, b: string, roleB: string)
    requires '>' !in roleA && '>' !in roleB
    requires EdgeId(PersonNode(a), EventNode(event), roleA) == EdgeId(PersonNode(b), EventNode(event), roleB)
    ensures a == b
  {
    var restA, restB := EventNode(event) + ":" + roleA, EventNode(event) + ":" + roleB;
    assert EdgeId(PersonNode(a), EventNode(event), roleA) == PersonNode(a) + ['>'] + restA;
    assert EdgeId(PersonNode(b), EventNode(event), roleB) == PersonNode(b) + ['>'] + restB;
    SplitAtLast('>', PersonNode(a), restA, PersonNode(b), restB);
    DropHead("person:", a, b);
  }

  /** A name goes on with a colon and `rest` where the other ends. */
  predicate Extends(head: string, article: string, other: string, otherArticle: string) {
    |head| < |other| && head <= other && other[|head|] == ':'
    && article == other[|head| + 1..] + ":" + otherArticle
  }

  /**
   Two references get one article node exactly when they name one article of one Code, or the name
   of one Code goes on, after a colon, where the other ends, and its article says the rest.
   */
  lemma ArticleNodesMergeIff(head: string, article: string, other: string, otherArticle: string)
    ensures ArticleNode(head, article) == ArticleNode(other, otherArticle)
            <==> (head == other && article == otherArticle)
                 || Extends(head, article, other, otherArticle) || Extends(other, otherArticle, head, article)
  {
    var s, t := head + (":" + article), other + (":" + otherArticle);
    assert ArticleNode(head, article) == "article:" + s && ArticleNode(other, otherArticle) == "article:" + t;
    if ArticleNode(head, article) == ArticleNode(other, otherArticle) {
      DropHead("article:", s, t);
      if |head| <= |other| { SplitsLater(head, article, other, otherArticle); }
      else { SplitsLater(other, otherArticle, head, article); }
    }
    if Extends(head, article, other, otherArticle) { JoinsAgain(head, article, other, otherArticle); }
    if Extends(other, otherArticle, head, article) { JoinsAgain(other, otherArticle, head, article); }
  }

  lemma SplitsLater(head: string, article: string, other: string, otherArticle: string)
    requires head + (":" + article) == other + (":" + otherArticle) && |head| <= |other|
    ensures (head == other && article == otherArticle) || Extends(head, article, other, otherArticle)
  {
    var s := head + (":" + article);
    var t := other + (":" + otherArticle);
    assert s[..|head|] == head && t[..|other|] == other;
    assert s[|head|] == ':' && s[|head| + 1..] == article && t[|other| + 1..] == otherArticle;
    if |head| < |other| {
      assert t[|head| + 1..] == other[|head| + 1..] + (":" + otherArticle);
      assert other[|head|] == t[|head|];
    }
  }

  lemma JoinsAgain(head: string, article: string, other: string, otherArticle: string)
    requires Extends(head, article, other, otherArticle)
    ensures head + (":" + article) == other + (":" + otherArticle)
  {
    assert other == head + ":" + other[|head| + 1..];
  }

  /** So two articles merge only when a Code's name holds a colon. */
  lemma PlainCodesKeepTheirArticles(head: string, article: string, other: string, otherArticle: string)
    requires ':' !in head && ':' !in other && ArticleNode(head, article) == ArticleNode(other, otherArticle)
    ensures head == other && article == otherArticle
  {
    ArticleNodesMergeIff(head, article, other, otherArticle);
  }

  lemma ColonMergesArticles()
    ensures ArticleNode("A", "B:1") == ArticleNode("A:B", "1")
  {
    JoinsAgain("A", "B:1", "A:B", "1");
    assert "article:" + "A" + ":" + "B:1" == "article:" + ("A" + (":" + "B:1"));
    assert "article:" + "A:B" + ":" + "1" == "article:" + ("A:B" + (":" + "1"));
  }

  /** Organisations of the two roles never share a node. */
  lemma OrgNodesDiffer(role: string, folded: string, other: string, otherFolded: string)
    requires ':' !in role && ':' !in other && OrgNode(role, folded) == OrgNode(other, otherFolded)
    ensures role == other && folded == otherFolded
  {
    assert OrgNode(role, folded) == "org:" + (role + [':'] + folded);
    assert OrgNode(other, otherFolded) == "org:" + (other + [':'] + otherFolded);
    DropHead("org:", role + [':'] + folded, other + [':'] + otherFolded);
    SplitAtFirst(':', role, folded, other, otherFolded);
  }

  /** A name with one of the two heads is that head, a colon and what follows. */
  lemma HeadAndRest(node: string, head: string)
    requires ':' !in head
    ensures head + ":" <= node <==> ':' in node && Partition(node).0 == head
    ensures head + ":" <= node ==> Partition(node) == (head, node[|head| + 1..])
  {
    if head + ":" <= node {
      var rest := node[|head| + 1..];
      assert node == head + ":" + rest;
      PartitionSplits(head, rest);
    }
  }

  /** Nothing else opens: a person by any key, an event by one to nine digits. */
  lemma OpensOnly(node: string)
    ensures Expand(node).OpenPerson? <==> node != "person:" && "person:" <= node
    ensures Expand(node).OpenPerson? ==> node == "person:" + Expand(node).key
    ensures Expand(node).OpenEvent? <==> "event:" <= node && 1 <= |node| - 6 <= 9 && AllDigits(node[6..])
    ensures Expand(node).OpenEvent? ==> Expand(node).id == Number(node[6..])
  {
    assert "person" + ":" == "person:" && "event" + ":" == "event:";
    HeadAndRest(node, "person");
    HeadAndRest(node, "event");
  }

  /** The names as the page's documentation gives them. */
  lemma DocumentedNames()
    ensures PersonNode("иван иванов") == "person:иван иванов" && OrgNode("court", "тверской суд") == "org:court:тверской суд"
    ensures EventNode(456) == "event:456" && PublicationNode(789) == "publication:789"
    ensures ArticleNode("УК", "280.3") == "article:УК:280.3"
  {
    DocumentedNumbers();
    DocumentedParts();
  }

  lemma DocumentedNumbers()
    ensures Decimal(456) == "456" && Decimal(789) == "789"
  {
    assert Decimal(4) == "4" && Decimal(45) == "45";
    assert Decimal(7) == "7" && Decimal(78) == "78";
  }

  lemma DocumentedParts()
    ensures OrgNode("court", "тверской суд") == "org:court:тверской суд"
    ensures ArticleNode("УК", "280.3") == "article:УК:280.3"
  {
  }

  /** An edge is named by its ends and its kind. */
  lemma EdgeName(start: string, end: string, kind: string)
    ensures EdgeId(start, end, kind) == start + ['>'] + end + [':'] + kind
  {
  }
}

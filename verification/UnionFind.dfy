/**
 The `parent` map of `_clusters` and its inner `find`: a forest of reports, climbed with
 path halving. The root of a report is defined by climbing alone (`IsRoot`); the ghost
 maps only witness that climbing ends.
 */
module UnionFind {
  type Id = int

  /** `n` steps up the parent map. */
  ghost function Climb(parent: map<Id, Id>, x: Id, n: nat): Id
    decreases n
  {
    if n == 0 || x !in parent then x else Climb(parent, parent[x], n - 1)
  }

  /** Climbing from `x` comes to rest at `r`. */
  ghost predicate IsRoot(parent: map<Id, Id>, x: Id, r: Id) {
    && r in parent && parent[r] == r
    && exists n: nat :: Climb(parent, x, n) == r
  }

  /** `x` hangs on a report of the forest with its own root, of lower rank unless `x` is that root. */
  ghost predicate Hangs(parent: map<Id, Id>, roots: map<Id, Id>, ranks: map<Id, nat>, x: Id)
    requires x in parent && roots.Keys == parent.Keys && ranks.Keys == parent.Keys
  {
    && parent[x] in parent && roots[x] in parent
    && parent[roots[x]] == roots[x]
    && roots[parent[x]] == roots[x]
    && (if parent[x] == x then roots[x] == x else ranks[parent[x]] < ranks[x])
  }

  /** `roots` names every report's root, and `ranks` falls on every step up that is not already at rest. */
  ghost predicate IsForest(parent: map<Id, Id>, roots: map<Id, Id>, ranks: map<Id, nat>) {
    && roots.Keys == parent.Keys && ranks.Keys == parent.Keys
    && forall x {:trigger Hangs(parent, roots, ranks, x)} :: x in parent ==> Hangs(parent, roots, ranks, x)
  }

  lemma {:induction false} ClimbEnds(parent: map<Id, Id>, roots: map<Id, Id>, ranks: map<Id, nat>, x: Id)
    requires IsForest(parent, roots, ranks) && x in parent
    ensures IsRoot(parent, x, roots[x])
    decreases ranks[x]
  {
    assert Hangs(parent, roots, ranks, x);
    if parent[x] == x {
      assert Climb(parent, x, 0) == x;
    } else {
      ClimbEnds(parent, roots, ranks, parent[x]);
      var n: nat :| Climb(parent, parent[x], n) == roots[x];
      assert Climb(parent, x, n + 1) == roots[x];
    }
  }

  lemma {:induction false} ClimbStaysInTree(
    parent: map<Id, Id>, roots: map<Id, Id>, ranks: map<Id, nat>, x: Id, n: nat)
    requires IsForest(parent, roots, ranks) && x in parent
    ensures Climb(parent, x, n) in parent && roots[Climb(parent, x, n)] == roots[x]
    decreases n
  {
    assert Hangs(parent, roots, ranks, x);
    if n != 0 { ClimbStaysInTree(parent, roots, ranks, parent[x], n - 1); }
  }

  /** A report of a forest has exactly one root. */
  lemma RootIsUnique(parent: map<Id, Id>, roots: map<Id, Id>, ranks: map<Id, nat>, x: Id, r: Id)
    requires IsForest(parent, roots, ranks) && x in parent
    ensures IsRoot(parent, x, r) <==> r == roots[x]
  {
    ClimbEnds(parent, roots, ranks, x);
    if IsRoot(parent, x, r) {
      var n: nat :| Climb(parent, x, n) == r;
      ClimbStaysInTree(parent, roots, ranks, x, n);
      assert Hangs(parent, roots, ranks, r);
    }
  }

  /** Two forests named by one `roots` map give every report the same root: what path halving preserves. */
  lemma SameRoots(
    before: map<Id, Id>, after: map<Id, Id>, roots: map<Id, Id>, old_: map<Id, nat>, new_: map<Id, nat>, x: Id, r: Id)
    requires IsForest(before, roots, old_) && IsForest(after, roots, new_) && x in before
    ensures IsRoot(before, x, r) <==> IsRoot(after, x, r)
  {
    RootIsUnique(before, roots, old_, x, r);
    RootIsUnique(after, roots, new_, x, r);
  }

  /** The trees after the one rooted at `lower` joins the one rooted at `upper`. */
  ghost function Rerooted(roots: map<Id, Id>, lower: Id, upper: Id): map<Id, Id> {
    map x | x in roots :: if roots[x] == lower then upper else roots[x]
  }

  ghost function Lifted(roots: map<Id, Id>, ranks: map<Id, nat>, lower: Id, upper: Id): map<Id, nat>
    requires roots.Keys == ranks.Keys && upper in ranks
  {
    map x | x in ranks :: if roots[x] == lower && lower != upper then ranks[x] + ranks[upper] + 1 else ranks[x]
  }

  /** Hanging one root under another, or under itself, leaves a forest. */
  lemma HangUnder(parent: map<Id, Id>, roots: map<Id, Id>, ranks: map<Id, nat>, lower: Id, upper: Id)
    requires IsForest(parent, roots, ranks) && lower in parent && upper in parent
    requires parent[lower] == lower && parent[upper] == upper
    ensures IsForest(parent[lower := upper], Rerooted(roots, lower, upper), Lifted(roots, ranks, lower, upper))
  {
    var next, nextRoots, nextRanks := parent[lower := upper], Rerooted(roots, lower, upper), Lifted(roots, ranks, lower, upper);
    assert Hangs(parent, roots, ranks, upper) && Hangs(parent, roots, ranks, lower);
    forall x | x in next
      ensures Hangs(next, nextRoots, nextRanks, x)
    {
      assert Hangs(parent, roots, ranks, x);
    }
  }

  class Forest {
    var parent: map<Id, Id>
    ghost var roots: map<Id, Id>
    ghost var ranks: map<Id, nat>

    ghost predicate Valid()
      reads this
    {
      IsForest(parent, roots, ranks)
    }

    /** `{report_id: report_id for report_id in reports}` */
    constructor (ids: set<Id>)
      ensures Valid() && parent.Keys == ids
      ensures forall x :: x in ids ==> roots[x] == x
    {
      parent := map x | x in ids :: x;
      roots := map x | x in ids :: x;
      ranks := map x | x in ids :: 0;
    }

    /** Path halving: every report passed is re-hung on its grandparent. */
    method Find(id: Id) returns (root: Id)
      requires Valid() && id in parent
      modifies this`parent
      ensures Valid() && parent.Keys == old(parent.Keys)
      ensures id in roots && root == roots[id] && root in parent && parent[root] == root
      ensures IsRoot(old(parent), id, root)
      ensures forall x, r :: x in parent ==> (IsRoot(parent, x, r) <==> IsRoot(old(parent), x, r))
    {
      root := id;
      while parent[root] != root
        invariant Valid() && parent.Keys == old(parent.Keys)
        invariant root in parent && roots[root] == roots[id]
        decreases ranks[root]
      {
        assert Hangs(parent, roots, ranks, root) && Hangs(parent, roots, ranks, parent[root]);
        ghost var before := parent;
        parent := parent[root := parent[parent[root]]];
        forall x | x in parent
          ensures Hangs(parent, roots, ranks, x)
        {
          assert Hangs(before, roots, ranks, x) && Hangs(before, roots, ranks, before[x]);
        }
        root := parent[root];
      }
      assert Hangs(parent, roots, ranks, root);
      RootIsUnique(old(parent), roots, ranks, id, root);
      forall x, r | x in parent
        ensures IsRoot(parent, x, r) <==> IsRoot(old(parent), x, r)
      {
        SameRoots(old(parent), parent, roots, ranks, ranks, x, r);
      }
    }

    /** `parent[find(id)] = find(other)`: the tree of `id` is hung under the root of `other`. */
    method Join(id: Id, other: Id)
      requires Valid() && id in parent && other in parent
      modifies this
      ensures Valid() && parent.Keys == old(parent.Keys)
      ensures id in old(roots) && other in old(roots)
      ensures roots == Rerooted(old(roots), old(roots)[id], old(roots)[other])
    {
      var upper := Find(other);
      var lower := Find(id);
      ghost var oldRoots, oldRanks := roots, ranks;
      HangUnder(parent, roots, ranks, lower, upper);
      parent := parent[lower := upper];
      roots := Rerooted(oldRoots, lower, upper);
      ranks := Lifted(oldRoots, oldRanks, lower, upper);
    }
  }
}

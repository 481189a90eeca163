/** `_workspace_closure`: a member of the workspace and every member it requires, through any others. */
module WorkspaceClosure {
  import opened Wrappers

  /** The workspace: each member with the distributions it requires, members or not. */
  type Workspace = map<string, seq<string>>

  ghost predicate Path(members: Workspace, path: seq<string>) {
    && path != []
    && (forall i :: 0 <= i < |path| ==> path[i] in members)
    && (forall i :: 0 <= i < |path| - 1 ==> path[i + 1] in members[path[i]])
  }

  ghost predicate Reaches(members: Workspace, from: string, to: string) {
    exists path :: Path(members, path) && path[0] == from && path[|path| - 1] == to
  }

  lemma ReachesOneMore(members: Workspace, from: string, via: string, to: string)
    requires Reaches(members, from, via) && via in members && to in members && to in members[via]
    ensures Reaches(members, from, to)
  {
    var path :| Path(members, path) && path[0] == from && path[|path| - 1] == via;
    var longer := path + [to];
    assert Path(members, longer) by {
      forall i | 0 <= i < |longer| - 1
        ensures longer[i + 1] in members[longer[i]]
      {
        if i < |path| - 1 { assert longer[i] == path[i] && longer[i + 1] == path[i + 1]; }
      }
    }
    assert longer[0] == from && longer[|longer| - 1] == to;
  }

  /** A set that holds the start and every member its members require holds all that can be reached. */
  lemma {:induction false} ClosedHoldsPath(members: Workspace, found: set<string>, path: seq<string>)
    requires Path(members, path) && path[0] in found
    requires forall m, d :: m in found && m in members && d in members[m] && d in members ==> d in found
    ensures path[|path| - 1] in found
  {
    if |path| > 1 {
      var rest := path[1..];
      assert path[0 + 1] in members[path[0]];
      forall i | 0 <= i < |rest| - 1
        ensures rest[i + 1] in members[rest[i]]
      {
        assert path[i + 1 + 1] in members[path[i + 1]];
      }
      ClosedHoldsPath(members, found, rest);
    }
  }

  lemma ClosedHoldsReached(members: Workspace, found: set<string>, from: string)
    requires from in found
    requires forall m, d :: m in found && m in members && d in members[m] && d in members ==> d in found
    ensures forall m :: Reaches(members, from, m) ==> m in found
  {
    forall m | Reaches(members, from, m)
      ensures m in found
    {
      var path :| Path(members, path) && path[0] == from && path[|path| - 1] == m;
      ClosedHoldsPath(members, found, path);
    }
  }

  /** Every requirement of one member taken in: found at once, and left to be taken. */
  method TakeRequirements(members: Workspace, requirements: seq<string>, found: set<string>, pending: seq<string>)
    returns (more: set<string>, later: seq<string>)
    requires forall m :: m in pending ==> m in found
    ensures found <= more && forall m :: m in later ==> m in more
    ensures forall d :: d in requirements && d in members ==> d in more
    ensures forall m :: m in more ==> m in found || (m in requirements && m in members)
    ensures forall m :: m in more && m !in later ==> m in found && m !in pending
    ensures |later| - |pending| == |more| - |found|
  {
    more, later := found, pending;
    for i := 0 to |requirements|
      invariant found <= more && forall m :: m in later ==> m in more
      invariant forall d :: d in requirements[..i] && d in members ==> d in more
      invariant forall m :: m in more ==> m in found || (m in requirements && m in members)
      invariant forall m :: m in more && m !in later ==> m in found && m !in pending
      invariant |later| - |pending| == |more| - |found|
    {
      var d := requirements[i];
      if d in members && d !in more {
        more := more + {d};
        later := later + [d];
      }
    }
    assert requirements[..|requirements|] == requirements;
  }

  /** Nothing for a name that is not a member (the source raises); on any graph, cycles included, exactly what it reaches. */
  method Closure(members: Workspace, name: string) returns (answer: Option<set<string>>)
    ensures answer.None? <==> name !in members
    ensures answer.Some? ==> forall m :: m in answer.value <==> Reaches(members, name, m)
  {
    if name !in members { return None; }
    var found, pending := {name}, [name];
    assert Path(members, [name]);
    assert Reaches(members, name, name) by { assert [name][0] == name && [name][|[name]| - 1] == name; }
    while pending != []
      invariant name in found && found <= members.Keys
      invariant forall m :: m in pending ==> m in found
      invariant forall m :: m in found ==> Reaches(members, name, m)
      invariant forall m, d :: m in found && m !in pending && d in members[m] && d in members ==> d in found
      decreases |members.Keys - found| + |pending|, |pending|
    {
      var taken := pending[|pending| - 1];
      ghost var before, left := found, pending;
      var rest := pending[..|pending| - 1];
      assert taken in pending;
      found, pending := TakeRequirements(members, members[taken], found, rest);
      forall m | m in found
        ensures Reaches(members, name, m)
      {
        if m !in before { ReachesOneMore(members, name, taken, m); }
      }
      forall m, d | m in found && m !in pending && d in members[m] && d in members
        ensures d in found
      {
        if m != taken { assert m !in left; }
      }
      Shrinks(members.Keys, before, found);
    }
    ClosedHoldsReached(members, found, name);
    answer := Some(found);
  }

  lemma Shrinks(all: set<string>, fewer: set<string>, more: set<string>)
    requires fewer <= more <= all
    ensures |all - more| + |more| == |all - fewer| + |fewer|
  {
    assert all == (all - more) + more && all == (all - fewer) + fewer;
    assert |(all - more) + more| == |all - more| + |more|;
    assert |(all - fewer) + fewer| == |all - fewer| + |fewer|;
  }
}

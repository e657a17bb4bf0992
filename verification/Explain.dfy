/** The work-list of nested groups behind the "explain" command. Group definitions may be cyclic here. */
module Explain {
  import opened GroupGraph

  /** `h` is a group that some group owning the file reaches in one step or more. */
  ghost predicate NestedIn(g: Groups, fileOwners: seq<string>, h: string) {
    IsGroup(h) && exists o, m :: o in fileOwners && Edge(g, o, m) && Reaches(g, m, h)
  }

  ghost predicate DirectlyIn(g: Groups, owners: seq<string>, h: string) {
    exists o :: o in owners && Edge(g, o, h)
  }

  ghost predicate NoDuplicates(s: seq<string>) {
    forall i, j :: 0 <= i < j < |s| ==> s[i] != s[j]
  }

  /** Everything that any group mentions: the bound on the work-list. */
  ghost function Mentioned(g: Groups): set<string> {
    set h, m | h in g.Keys && m in g[h] :: m
  }

  function Members(g: Groups, h: string): seq<string> {
    if h in g then g[h] else []
  }

  lemma EdgeExtends(g: Groups, a: string, b: string, c: string)
    requires Reaches(g, a, b) && Edge(g, b, c)
    ensures Reaches(g, a, c)
  {
    ReachesSelf(g, c);
    EdgeThenReaches(g, b, c, c);
    ReachesTransitive(g, a, b, c);
  }

  /** Adds the groups among a group's members to a list, unless they are in it already. */
  method AddGroups(members: seq<string>, nested: seq<string>) returns (r: seq<string>)
    requires NoDuplicates(nested)
    ensures nested <= r && NoDuplicates(r)
    ensures forall h :: h in r <==> h in nested || (IsGroup(h) && h in members)
  {
    r := nested;
    for i := 0 to |members|
      invariant nested <= r && NoDuplicates(r)
      invariant forall h :: h in r <==> h in nested || (IsGroup(h) && h in members[..i])
    {
      var member := members[i];
      assert members[..i + 1] == members[..i] + [member];
      if IsGroup(member) && member !in r {
        r := r + [member];
      }
    }
    assert members[..|members|] == members;
  }

  /** A list that holds the start and, with each group, the groups among its members, holds all that can be reached. */
  lemma {:induction false} ClosedHoldsReachable(g: Groups, s: seq<string>, p: seq<string>, a: string, h: string)
    requires forall x, m :: x in s && Edge(g, x, m) && IsGroup(m) ==> m in s
    requires a in s && IsGroup(h) && ChainTo(g, p, a, h)
    ensures h in s
    decreases |p|
  {
    if |p| > 1 {
      assert Edge(g, a, p[1]);
      assert ChainTo(g, p[1..], p[1], h);
      assert IsGroup(p[1]) by {
        if |p| > 2 {
          assert Edge(g, p[1], p[2]);
        }
      }
      ClosedHoldsReachable(g, s, p[1..], p[1], h);
    }
  }

  lemma SubsetSize(a: set<string>, b: set<string>)
    requires a <= b
    ensures |a| <= |b|
  {
    if a != {} {
      var x :| x in a;
      SubsetSize(a - {x}, b - {x});
    }
  }

  lemma {:induction false} DistinctFitIn(s: seq<string>, bound: set<string>)
    requires NoDuplicates(s) && forall x :: x in s ==> x in bound
    ensures |s| <= |bound|
  {
    if s != [] {
      var k := |s| - 1;
      assert s == s[..k] + [s[k]];
      DistinctFitIn(s[..k], bound - {s[k]});
    }
  }

  /** The work-list ends with exactly the nested groups, each once, even if they contain each other. */
  method NestedGroups(g: Groups, fileOwners: seq<string>) returns (nested: seq<string>)
    ensures NoDuplicates(nested)
    ensures forall h :: h in nested <==> NestedIn(g, fileOwners, h)
  {
    nested := [];
    for i := 0 to |fileOwners|
      invariant NoDuplicates(nested)
      invariant forall h :: h in nested <==> IsGroup(h) && DirectlyIn(g, fileOwners[..i], h)
    {
      var owner := fileOwners[i];
      assert fileOwners[..i + 1] == fileOwners[..i] + [owner];
      if IsGroup(owner) {
        nested := AddGroups(Members(g, owner), nested);
      }
      forall h
        ensures DirectlyIn(g, fileOwners[..i + 1], h) <==> DirectlyIn(g, fileOwners[..i], h) || Edge(g, owner, h)
      {
      }
    }
    assert fileOwners[..|fileOwners|] == fileOwners;
    ghost var direct := nested;
    forall h | h in direct
      ensures NestedIn(g, fileOwners, h)
    {
      ReachesSelf(g, h);
    }

    // The list grows while it is gone through.
    var i := 0;
    while i < |nested|
      invariant i <= |nested| && direct <= nested
      invariant NoDuplicates(nested)
      invariant forall h :: h in nested ==> NestedIn(g, fileOwners, h) && h in Mentioned(g)
      invariant forall j, m :: 0 <= j < i && Edge(g, nested[j], m) && IsGroup(m) ==> m in nested
      decreases |Mentioned(g)| - i
    {
      DistinctFitIn(nested, Mentioned(g));
      var group := nested[i];
      ghost var before := nested;
      nested := AddGroups(Members(g, group), nested);
      forall h | h in nested && h !in before
        ensures NestedIn(g, fileOwners, h) && h in Mentioned(g)
      {
        assert Edge(g, group, h);
        assert NestedIn(g, fileOwners, group);
        var o, m :| o in fileOwners && Edge(g, o, m) && Reaches(g, m, group);
        EdgeExtends(g, m, group, h);
      }
      i := i + 1;
    }
    forall h | NestedIn(g, fileOwners, h)
      ensures h in nested
    {
      var o, m :| o in fileOwners && Edge(g, o, m) && Reaches(g, m, h);
      var p :| ChainTo(g, p, m, h);
      assert IsGroup(m) by {
        if |p| > 1 {
          assert Edge(g, m, p[1]);
        }
      }
      assert m in direct;
      ClosedHoldsReachable(g, nested, p, m, h);
    }
  }
}

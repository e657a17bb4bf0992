/** What expanding the groups of a whole parsed file means, for every order in which its paths may be walked. */
module FileExpansion {
  import opened GroupExpansion
  import opened GroupGraph
  import opened GroupVisits
  import opened Ordering

  type Paths = map<string, seq<string>>

  /** The parts of a parsed file that expansion can change. */
  datatype Contents = Contents(groups: Groups, paths: Paths, users: set<string>)

  ghost predicate Expandable(c: Contents) {
    forall p :: p in c.paths ==> AllWellFormed(c.groups, c.paths[p])
  }

  ghost predicate Terminates(c: Contents) {
    forall p :: p in c.paths ==> AllAcyclic(c.groups, c.paths[p])
  }

  /** An order in which the paths may be walked: any at all, as iteration over a map has none. */
  ghost predicate IsWalk(c: Contents, walk: seq<string>) {
    && (forall p :: p in walk <==> p in c.paths)
    && (forall i, j :: 0 <= i < j < |walk| ==> walk[i] != walk[j])
  }

  /** The members of all path entries, one entry after the other. */
  function MembersAlong(paths: Paths, walk: seq<string>): seq<string>
    requires forall p :: p in walk ==> p in paths
  {
    if walk == [] then []
    else
      var k := |walk| - 1;
      MembersAlong(paths, walk[..k]) + paths[walk[k]]
  }

  /** Overwrites just the groups whose expansion is completed. */
  ghost predicate GroupsStep(g: Groups, names: seq<string>, groups: Groups, groups': Groups) {
    && groups.Keys == groups'.Keys == g.Keys
    && forall h :: h in g ==> if Completes(g, names, h) then FlatGroup(g, h, groups'[h]) else groups'[h] == groups[h]
  }

  /** Adds just the users that expansion comes across. */
  ghost predicate UsersStep(g: Groups, names: seq<string>, users: set<string>, users': set<string>) {
    forall u :: u in users' <==> u in users || Notes(g, names, u)
  }

  /** What expansion makes of a parsed file, whose paths are walked in this order: there is just one such outcome. */
  ghost predicate Expansion(before: Contents, walk: seq<string>, after: Contents, ok: bool) {
    && IsWalk(before, walk)
    && (ok <==> Expandable(before))
       // Paths are replaced by their users all at once, or not at all.
    && (!ok ==> after.paths == before.paths)
    && (ok ==> && after.paths.Keys == before.paths.Keys
               && forall p :: p in before.paths ==> FlatOf(before.groups, before.paths[p], after.paths[p]))
    && GroupsStep(before.groups, MembersAlong(before.paths, walk), before.groups, after.groups)
    && UsersStep(before.groups, MembersAlong(before.paths, walk), before.users, after.users)
  }

  // ----- Members along a walk

  lemma {:induction false} AlongHasMembers(paths: Paths, walk: seq<string>, n: string)
    requires forall p :: p in walk ==> p in paths
    ensures n in MembersAlong(paths, walk) <==> exists p :: p in walk && n in paths[p]
  {
    if walk != [] {
      var k := |walk| - 1;
      assert walk == walk[..k] + [walk[k]];
      AlongHasMembers(paths, walk[..k], n);
    }
  }

  lemma AlongOneMore(paths: Paths, walk: seq<string>, i: nat)
    requires i < |walk| && forall p :: p in walk ==> p in paths
    ensures MembersAlong(paths, walk[..i + 1]) == MembersAlong(paths, walk[..i]) + paths[walk[i]]
  {
    assert walk[..i + 1][..i] == walk[..i];
  }

  lemma {:induction false} AlongPrefix(paths: Paths, walk: seq<string>, i: nat) returns (rest: seq<string>)
    requires i <= |walk| && forall p :: p in walk ==> p in paths
    ensures MembersAlong(paths, walk) == MembersAlong(paths, walk[..i]) + rest
  {
    var k := |walk| - 1;
    if i == |walk| {
      assert walk[..i] == walk;
      rest := [];
    } else {
      rest := AlongPrefix(paths, walk[..k], i);
      assert walk[..k][..i] == walk[..i];
      rest := rest + paths[walk[k]];
    }
  }

  lemma WellFormedAlong(c: Contents, walk: seq<string>)
    requires forall p :: p in walk <==> p in c.paths
    ensures AllWellFormed(c.groups, MembersAlong(c.paths, walk)) <==> Expandable(c)
  {
    forall n
      ensures n in MembersAlong(c.paths, walk) <==> exists p :: p in walk && n in c.paths[p]
    {
      AlongHasMembers(c.paths, walk, n);
    }
  }

  // ----- Expanding a list of names, step by step

  ghost predicate Step(g: Groups, names: seq<string>, groups: Groups, groups': Groups,
                       users: set<string>, users': set<string>, ok: bool) {
    && Memo(g, groups') && Settled(g, groups')
    && (ok <==> AllWellFormed(g, names))
    && GroupsStep(g, names, groups, groups')
    && UsersStep(g, names, users, users')
  }

  lemma NoStep(g: Groups, groups: Groups, users: set<string>)
    requires Memo(g, groups) && Settled(g, groups)
    ensures Step(g, [], groups, groups, users, users, true)
  {
  }

  lemma StepsCompose(g: Groups, a: seq<string>, b: seq<string>, g0: Groups, g1: Groups, g2: Groups,
                     u0: set<string>, u1: set<string>, u2: set<string>, ok: bool)
    requires Step(g, a, g0, g1, u0, u1, true) && Step(g, b, g1, g2, u1, u2, ok)
    ensures Step(g, a + b, g0, g2, u0, u2, ok)
  {
    forall x
      ensures Visits(g, a + b, x) <==> Visits(g, a, x) || Visits(g, b, x)
    {
      VisitsConcat(g, a, b, x);
    }
  }

  lemma StepFails(g: Groups, a: seq<string>, b: seq<string>, g0: Groups, g1: Groups, u0: set<string>, u1: set<string>)
    requires Step(g, a, g0, g1, u0, u1, false)
    ensures Step(g, a + b, g0, g1, u0, u1, false)
  {
    forall x
      ensures Visits(g, a + b, x) <==> Visits(g, a, x)
    {
      VisitsConcat(g, a, b, x);
    }
    var n :| n in a && !WellFormedFrom(g, n);
    assert n in a + b;
  }

  lemma IndividualStep(g: Groups, name: string, groups: Groups, users: set<string>)
    requires !IsGroup(name) && Memo(g, groups) && Settled(g, groups)
    ensures Step(g, [name], groups, groups, users, users + {name}, true)
    ensures FlatGroup(g, name, [name])
  {
    WellFormedIndividual(g, name);
    forall x
      ensures Visits(g, [name], x) <==> x == name
      ensures Reaches(g, name, x) <==> x == name
    {
      VisitsIndividual(g, name, x);
      ReachesUnfolds(g, name, x);
    }
    assert UserOf(g, name, name) && name in [name];
  }

  /** An undefined group fails, with no effects. */
  lemma UndefinedGroupFails(g: Groups, name: string, groups: Groups, users: set<string>)
    requires IsGroup(name) && name !in g && Memo(g, groups) && Settled(g, groups)
    ensures Step(g, [name], groups, groups, users, users, false)
  {
    ReachesSelf(g, name);
    assert name in [name] && !WellFormedFrom(g, name);
    forall x
      ensures Visits(g, [name], x) <==> x == name
    {
      VisitsGroup(g, name, x);
    }
  }

  /** A group whose members fail to expand, or that has none, fails with the same effects. */
  lemma GroupStepFails(g: Groups, name: string, g0: Groups, g1: Groups, u0: set<string>, u1: set<string>, ok: bool)
    requires IsGroup(name) && name in g0 && Memo(g, g0)
    requires Step(g, g0[name], g0, g1, u0, u1, ok) && (ok ==> g0[name] == [])
    ensures g0[name] == g[name] && Step(g, [name], g0, g1, u0, u1, false)
  {
    if g0[name] != g[name] {
      OverwrittenExpandsToItself(g, g0, name);
    }
    WellFormedGroup(g, name);
    assert name in [name] && !WellFormedFrom(g, name);
    forall x
      ensures Visits(g, [name], x) <==> x == name || Visits(g, g0[name], x)
    {
      VisitsGroup(g, name, x);
    }
  }

  lemma EmptyGroupFails(g: Groups, name: string, g0: Groups, g1: Groups, u0: set<string>, u1: set<string>,
                        expanded: seq<string>)
    requires IsGroup(name) && name in g0 && Memo(g, g0) && g0[name] == []
    requires Step(g, [], g0, g1, u0, u1, true) && FlatOf(g, [], expanded)
    ensures expanded == [] && Step(g, [name], g0, g1[name := expanded], u0, u1, false)
  {
    GroupStepFails(g, name, g0, g1, u0, u1, true);
    assert forall u :: !UserOfAny(g, [], u);
    SortedListingIsUnique(expanded, []);
    assert forall h :: !Completes(g, [], h);
    assert g1[name := []] == g1;
  }

  /** Every group below an expanded one is flat. */
  lemma BelowIsFlat(g: Groups, name: string, g0: Groups, g1: Groups, u0: set<string>, u1: set<string>)
    requires IsGroup(name) && name in g0 && Memo(g, g0) && Settled(g, g0) && WellFormedFrom(g, name)
    requires Step(g, g0[name], g0, g1, u0, u1, true)
    ensures forall h :: IsGroup(h) && Reaches(g, name, h) && h != name ==> h in g1 && FlatGroup(g, h, g1[h])
  {
    forall h | IsGroup(h) && Reaches(g, name, h) && h != name
      ensures h in g1 && FlatGroup(g, h, g1[h])
    {
      if g0[name] == g[name] {
        var m := FirstStep(g, name, h);
        assert ReachedFrom(g, g0[name], h);
        WellFormedVisitAll(g, g0[name], h);
        WellFormedBelow(g, name, h);
        assert Completes(g, g0[name], h);
      } else {
        assert FlatGroup(g, h, g0[h]);
      }
    }
  }

  lemma OverwriteKeepsMemo(g: Groups, name: string, cur: Groups, expanded: seq<string>)
    requires Memo(g, cur) && Settled(g, cur) && name in cur && IsGroup(name)
    requires WellFormedFrom(g, name) && FlatGroup(g, name, expanded)
    requires forall h :: IsGroup(h) && Reaches(g, name, h) && h != name ==> h in cur && FlatGroup(g, h, cur[h])
    ensures Memo(g, cur[name := expanded]) && Settled(g, cur[name := expanded])
  {
  }

  /** A defined group, overwritten or not, stands for what its current members stand for. */
  lemma GroupMeansMembers(g: Groups, name: string, cur: Groups)
    requires IsGroup(name) && name in cur && Memo(g, cur) && AcyclicFrom(g, name)
    ensures forall h :: ReachedFrom(g, cur[name], h) ==> Reaches(g, name, h)
    ensures forall u :: UserOf(g, name, u) <==> UserOfAny(g, cur[name], u)
  {
    MembersBelowGroup(g, cur, name);
    forall h | ReachedFrom(g, cur[name], h)
      ensures Reaches(g, name, h)
    {
      var m :| m in cur[name] && Reaches(g, m, h);
      ReachesTransitive(g, name, m, h);
    }
    if cur[name] != g[name] {
      OverwrittenExpandsToItself(g, cur, name);
    }
    forall u
      ensures UserOf(g, name, u) <==> UserOfAny(g, cur[name], u)
    {
      UserOfGroup(g, name, u);
    }
  }

  /** Expanding a well-formed group visits all below it, and notes whom its current members note. */
  lemma GroupVisitsMembers(g: Groups, name: string, cur: Groups)
    requires IsGroup(name) && name in cur && Memo(g, cur) && AcyclicFrom(g, name)
    requires WellFormedFrom(g, name) && AllWellFormed(g, cur[name])
    ensures forall x :: Visits(g, [name], x) <==> Reaches(g, name, x)
    ensures forall x :: Visits(g, cur[name], x) ==> Reaches(g, name, x)
    ensures forall u :: Notes(g, [name], u) <==> Notes(g, cur[name], u)
  {
    GroupMeansMembers(g, name, cur);
    forall x
      ensures Visits(g, [name], x) <==> Reaches(g, name, x)
      ensures Visits(g, cur[name], x) <==> ReachedFrom(g, cur[name], x)
    {
      VisitsOne(g, name, x);
      PrunedBelowWellFormed(g, name, x);
      WellFormedVisitAll(g, cur[name], x);
    }
    forall u
      ensures Notes(g, [name], u) <==> Notes(g, cur[name], u)
    {
      assert UserOf(g, name, u) <==> UserOfAny(g, cur[name], u);
    }
  }

  lemma GroupStepSucceeds(g: Groups, name: string, g0: Groups, g1: Groups, u0: set<string>, u1: set<string>,
                          expanded: seq<string>)
    requires IsGroup(name) && name in g0 && Memo(g, g0) && Settled(g, g0) && AcyclicFrom(g, name)
    requires Step(g, g0[name], g0, g1, u0, u1, true)
    requires FlatOf(g, g0[name], expanded) && g0[name] != [] && expanded != []
    ensures Step(g, [name], g0, g1[name := expanded], u0, u1, true)
    ensures FlatGroup(g, name, expanded)
  {
    MembersListGroup(g, g0, name, expanded);
    BelowIsFlat(g, name, g0, g1, u0, u1);
    OverwriteKeepsMemo(g, name, g1, expanded);
    SucceededStep(g, name, g0, g1, u0, u1, expanded);
  }

  lemma SucceededStep(g: Groups, name: string, g0: Groups, g1: Groups, u0: set<string>, u1: set<string>,
                      expanded: seq<string>)
    requires IsGroup(name) && name in g0 && Memo(g, g0) && AcyclicFrom(g, name) && WellFormedFrom(g, name)
    requires Step(g, g0[name], g0, g1, u0, u1, true) && FlatGroup(g, name, expanded)
    requires Memo(g, g1[name := expanded]) && Settled(g, g1[name := expanded])
    requires forall h :: IsGroup(h) && Reaches(g, name, h) && h != name ==> h in g1 && FlatGroup(g, h, g1[h])
    ensures Step(g, [name], g0, g1[name := expanded], u0, u1, true)
  {
    GroupVisitsMembers(g, name, g0);
    OverwriteIsStep(g, name, g0[name], g0, g1, expanded);
    SameUsersStep(g, g0[name], [name], u0, u1);
  }

  lemma OverwriteIsStep(g: Groups, name: string, members: seq<string>, g0: Groups, g1: Groups, expanded: seq<string>)
    requires IsGroup(name) && name in g && WellFormedFrom(g, name)
    requires GroupsStep(g, members, g0, g1) && FlatGroup(g, name, expanded)
    requires forall x :: Visits(g, [name], x) <==> Reaches(g, name, x)
    requires forall x :: Visits(g, members, x) ==> Reaches(g, name, x)
    requires forall h :: IsGroup(h) && Reaches(g, name, h) && h != name ==> h in g1 && FlatGroup(g, h, g1[h])
    ensures GroupsStep(g, [name], g0, g1[name := expanded])
  {
    ReachesSelf(g, name);
    var g2 := g1[name := expanded];
    forall h | h in g
      ensures if Completes(g, [name], h) then FlatGroup(g, h, g2[h]) else g2[h] == g0[h]
    {
      if h != name && !Completes(g, [name], h) {
        assert !Completes(g, members, h);
      }
    }
  }

  lemma SameUsersStep(g: Groups, names: seq<string>, others: seq<string>, u0: set<string>, u1: set<string>)
    requires UsersStep(g, names, u0, u1)
    requires forall u :: Notes(g, others, u) <==> Notes(g, names, u)
    ensures UsersStep(g, others, u0, u1)
  {
  }

  // ----- Whole files

  /** The first `i` entries of the walk were expanded, or expansion failed at the last of them. */
  ghost predicate ExpandedFirst(before: Contents, walk: seq<string>, i: nat, after: Contents, ok: bool)
    requires IsWalk(before, walk) && i <= |walk|
  {
    var names := MembersAlong(before.paths, walk[..i]);
    Step(before.groups, names, before.groups, after.groups, before.users, after.users, ok)
  }

  lemma AbortedExpansion(before: Contents, after: Contents, walk: seq<string>, i: nat)
    requires IsWalk(before, walk) && i <= |walk| && after.paths == before.paths
    requires ExpandedFirst(before, walk, i, after, false)
    ensures Expansion(before, walk, after, false)
  {
    var rest := AlongPrefix(before.paths, walk, i);
    StepFails(before.groups, MembersAlong(before.paths, walk[..i]), rest, before.groups, after.groups,
              before.users, after.users);
    WellFormedAlong(before, walk);
  }

  /** The path entries of the first `i` steps of the walk, expanded. */
  ghost predicate PathsExpanded(before: Contents, walk: seq<string>, i: nat, expanded: Paths)
    requires IsWalk(before, walk) && i <= |walk|
  {
    && (forall p :: p in expanded <==> p in walk[..i])
    && (forall p :: p in expanded ==> p in before.paths && FlatOf(before.groups, before.paths[p], expanded[p]))
  }

  lemma OneMorePathExpanded(before: Contents, walk: seq<string>, i: nat, expanded: Paths, users: seq<string>)
    requires IsWalk(before, walk) && i < |walk| && PathsExpanded(before, walk, i, expanded)
    requires walk[i] in before.paths && FlatOf(before.groups, before.paths[walk[i]], users)
    ensures PathsExpanded(before, walk, i + 1, expanded[walk[i] := users])
  {
    assert walk[..i + 1] == walk[..i] + [walk[i]];
  }

  lemma CompletedExpansion(before: Contents, after: Contents, walk: seq<string>)
    requires IsWalk(before, walk) && PathsExpanded(before, walk, |walk|, after.paths)
    requires ExpandedFirst(before, walk, |walk|, after, true)
    ensures Expansion(before, walk, after, true)
  {
    assert walk[..|walk|] == walk;
    WellFormedAlong(before, walk);
  }

  /** Expansion keeps the meaning of groups, and leaves an overwritten group with flat ones below it. */
  lemma ExpansionIsMemo(before: Contents, walk: seq<string>, after: Contents, ok: bool)
    requires Expansion(before, walk, after, ok)
    ensures Memo(before.groups, after.groups) && Settled(before.groups, after.groups)
  {
    var g, all := before.groups, MembersAlong(before.paths, walk);
    forall h, k | h in g && after.groups[h] != g[h] && IsGroup(k) && Reaches(g, h, k)
      ensures k in after.groups && FlatGroup(g, k, after.groups[k])
    {
      assert Completes(g, all, h);
      WellFormedBelow(g, h, k);
      PrunedBelowWellFormed(g, h, k);
      var n :| n in UpToBad(g, all) && Reaches(Pruned(g), n, h);
      ReachesTransitive(Pruned(g), n, h, k);
      ReachesSelf(g, k);
      assert Completes(g, all, k);
    }
  }

  lemma SameListing(g: Groups, h: string, s: seq<string>, t: seq<string>)
    requires FlatGroup(g, h, s) && FlatGroup(g, h, t)
    ensures s == t
  {
    SortedListingIsUnique(s, t);
  }

  /** Expansions that visit the same users and groups make the same of the file. */
  lemma SameVisitsSameOutcome(before: Contents, v: seq<string>, w: seq<string>, a: Contents, b: Contents,
                              ok: bool, ok': bool)
    requires Expansion(before, v, a, ok) && Expansion(before, w, b, ok')
    requires forall x :: Visits(before.groups, MembersAlong(before.paths, v), x) <==>
                         Visits(before.groups, MembersAlong(before.paths, w), x)
    ensures a == b && ok == ok'
  {
    var g := before.groups;
    forall h | h in g
      ensures a.groups[h] == b.groups[h]
    {
      if Completes(g, MembersAlong(before.paths, v), h) {
        assert Completes(g, MembersAlong(before.paths, w), h);
        SameListing(g, h, a.groups[h], b.groups[h]);
      }
    }
    forall p | p in before.paths && ok
      ensures a.paths[p] == b.paths[p]
    {
      FlatListingsAgree(g, before.paths[p], a.paths[p], b.paths[p]);
    }
    assert a.groups == b.groups && a.paths == b.paths;
    assert forall u :: u in a.users <==> u in b.users;
  }

  /** Expansion that succeeds makes the same of a file in whatever order its paths are walked. */
  lemma SuccessIgnoresOrder(before: Contents, v: seq<string>, w: seq<string>, a: Contents, b: Contents, ok: bool)
    requires Expansion(before, v, a, true) && Expansion(before, w, b, ok)
    ensures ok && a == b
  {
    WellFormedAlong(before, v);
    WellFormedAlong(before, w);
    var g, av, aw := before.groups, MembersAlong(before.paths, v), MembersAlong(before.paths, w);
    forall n
      ensures n in av <==> n in aw
    {
      AlongHasMembers(before.paths, v, n);
      AlongHasMembers(before.paths, w, n);
    }
    forall x
      ensures Visits(g, av, x) <==> Visits(g, aw, x)
    {
      WellFormedVisitAll(g, av, x);
      WellFormedVisitAll(g, aw, x);
    }
    SameVisitsSameOutcome(before, v, w, a, b, true, ok);
  }

  /** A successful expansion notes everyone behind the owners of any path. */
  lemma SuccessNotesAll(before: Contents, walk: seq<string>, after: Contents, p: string, n: string, u: string)
    requires Expansion(before, walk, after, true)
    requires p in before.paths && n in before.paths[p] && UserOf(before.groups, n, u)
    ensures u in after.users
  {
    var all := MembersAlong(before.paths, walk);
    AlongHasMembers(before.paths, walk, n);
    WellFormedAlong(before, walk);
    WellFormedVisitAll(before.groups, all, u);
    assert ReachedFrom(before.groups, all, u);
    assert Notes(before.groups, all, u);
  }

  // ----- Expanding twice

  lemma ExpandedMembersAreNotedUsers(before: Contents, v: seq<string>, once: Contents, w: seq<string>, n: string)
    requires Expansion(before, v, once, true) && IsWalk(once, w) && n in MembersAlong(once.paths, w)
    ensures !IsGroup(n) && n in once.users
  {
    AlongHasMembers(once.paths, w, n);
    var p :| p in w && n in once.paths[p];
    assert UserOfAny(before.groups, before.paths[p], n);
    var m :| m in before.paths[p] && UserOf(before.groups, m, n);
    SuccessNotesAll(before, v, once, p, m, n);
  }

  /** Visiting nobody but users: no group is completed, and whoever is noted is on the list. */
  lemma VisitsAmongUsers(g: Groups, names: seq<string>, x: string)
    requires Visits(g, names, x) && forall n :: n in names ==> !IsGroup(n)
    ensures !IsGroup(x) && x in names
  {
    VisitedIsReached(g, names, x);
    var n :| n in names && Reaches(g, n, x);
    ReachesUnfolds(g, n, x);
  }

  /** Expanding an expanded file changes nothing. */
  lemma ExpansionIsIdempotent(before: Contents, v: seq<string>, once: Contents, w: seq<string>, twice: Contents,
                              ok: bool)
    requires Expansion(before, v, once, true) && Expansion(once, w, twice, ok)
    ensures ok && twice == once
  {
    var all := MembersAlong(once.paths, w);
    ExpansionIsMemo(before, v, once, true);
    forall p | p in once.paths
      ensures AllWellFormed(once.groups, once.paths[p]) && FlatOf(once.groups, once.paths[p], once.paths[p])
    {
      MemoKeepsFlat(before.groups, once.groups, before.paths[p], once.paths[p]);
      UsersExpandToThemselves(once.groups, before.paths[p], once.paths[p]);
    }
    forall p | p in once.paths
      ensures twice.paths[p] == once.paths[p]
    {
      FlatListingsAgree(once.groups, once.paths[p], once.paths[p], twice.paths[p]);
    }
    forall n | n in all
      ensures !IsGroup(n) && n in once.users
    {
      ExpandedMembersAreNotedUsers(before, v, once, w, n);
    }
    forall x | Visits(once.groups, all, x)
      ensures !IsGroup(x) && x in once.users
    {
      VisitsAmongUsers(once.groups, all, x);
    }
    assert twice.groups == once.groups && twice.paths == once.paths;
    assert forall u :: u in twice.users <==> u in once.users;
  }

  /** A failed expansion fails again, and what it then adds is what it would have added to the original file. */
  lemma FailedExpansionFailsAgain(before: Contents, v: seq<string>, once: Contents, w: seq<string>, twice: Contents,
                                  ok: bool)
    requires Expansion(before, v, once, false) && Expansion(once, w, twice, ok)
    ensures !ok && twice.paths == before.paths
    ensures UsersStep(before.groups, MembersAlong(before.paths, w), once.users, twice.users)
    ensures GroupsStep(before.groups, MembersAlong(before.paths, w), once.groups, twice.groups)
  {
    var g, cur, all := before.groups, once.groups, MembersAlong(before.paths, w);
    ExpansionIsMemo(before, v, once, false);
    var p :| p in before.paths && !AllWellFormed(g, before.paths[p]);
    var n :| n in before.paths[p] && !WellFormedFrom(g, n);
    MemoKeepsWellFormedness(g, cur, n);
    assert !AllWellFormed(cur, once.paths[p]);
    forall u
      ensures Notes(cur, all, u) <==> Notes(g, all, u)
    {
      MemoKeepsNotes(g, cur, all, u);
    }
    forall h | h in g
      ensures if Completes(g, all, h) then FlatGroup(g, h, twice.groups[h]) else twice.groups[h] == cur[h]
    {
      CompletedAgain(g, cur, all, h, twice.groups[h]);
    }
  }

  lemma CompletedAgain(g: Groups, cur: Groups, names: seq<string>, h: string, listing: seq<string>)
    requires Memo(g, cur) && Settled(g, cur) && h in g
    requires if Completes(cur, names, h) then FlatGroup(cur, h, listing) else listing == cur[h]
    ensures if Completes(g, names, h) then FlatGroup(g, h, listing) else listing == cur[h]
  {
    MemoKeepsCompletes(g, cur, names, h);
    forall u
      ensures UserOf(cur, h, u) <==> UserOf(g, h, u)
    {
      MemoKeepsUsers(g, cur, h, u);
    }
  }

  /** Someone noted, or some group made flat, along the second walk was not along the first, nor to begin with. */
  ghost predicate AddsMore(before: Contents, v: seq<string>, w: seq<string>)
    requires IsWalk(before, v) && IsWalk(before, w)
  {
    var g, first, second := before.groups, MembersAlong(before.paths, v), MembersAlong(before.paths, w);
    || (exists u :: Notes(g, second, u) && !Notes(g, first, u) && u !in before.users)
    || (exists h :: h in g && Completes(g, second, h) && !Completes(g, first, h) && !FlatGroup(g, h, g[h]))
  }

  /** Failed expansion is idempotent exactly if the second walk adds nothing to the first, as when it is the same. */
  lemma FailedExpansionIsIdempotentExactly(before: Contents, v: seq<string>, once: Contents, w: seq<string>,
                                           twice: Contents, ok: bool)
    requires Expansion(before, v, once, false) && Expansion(once, w, twice, ok)
    ensures twice == once <==> !AddsMore(before, v, w)
    ensures v == w ==> twice == once
  {
    FailedExpansionFailsAgain(before, v, once, w, twice, ok);
    var g, first, second := before.groups, MembersAlong(before.paths, v), MembersAlong(before.paths, w);
    if !AddsMore(before, v, w) {
      forall h | h in g
        ensures twice.groups[h] == once.groups[h]
      {
        if Completes(g, second, h) {
          assert FlatGroup(g, h, once.groups[h]);
          SameListing(g, h, once.groups[h], twice.groups[h]);
        }
      }
      assert twice.groups == once.groups && twice.paths == once.paths;
      assert forall u :: u in twice.users <==> u in once.users;
    }
  }

  // ----- A walk is a sequence of entries, and the first ill-formed one ends it

  /** Expanding this path entry first notes one of these users, even if it fails. */
  ghost predicate EntryNotes(c: Contents, p: string, names: seq<string>)
    requires p in c.paths
  {
    exists n :: n in names && Notes(c.groups, c.paths[p], n)
  }

  ghost predicate WalkNotes(c: Contents, walk: seq<string>, names: seq<string>)
    requires IsWalk(c, walk)
  {
    exists n :: n in names && Notes(c.groups, MembersAlong(c.paths, walk), n)
  }

  ghost predicate BadEntry(c: Contents, p: string) {
    p in c.paths && !AllWellFormed(c.groups, c.paths[p])
  }

  /** Expansion gets to the `i`th entry of the walk, and from there to `x`, a user or a group. */
  ghost predicate VisitedAt(c: Contents, walk: seq<string>, i: nat, x: string)
    requires forall p :: p in walk ==> p in c.paths
  {
    i < |walk| && (forall j :: 0 <= j < i ==> !BadEntry(c, walk[j])) && Visits(c.groups, c.paths[walk[i]], x)
  }

  lemma {:induction false} NoBadEntryAlong(c: Contents, walk: seq<string>)
    requires forall p :: p in walk ==> p in c.paths
    ensures AllWellFormed(c.groups, MembersAlong(c.paths, walk)) <==>
            forall j :: 0 <= j < |walk| ==> !BadEntry(c, walk[j])
  {
    if walk != [] {
      var k := |walk| - 1;
      NoBadEntryAlong(c, walk[..k]);
      assert forall j :: 0 <= j < k ==> walk[..k][j] == walk[j];
    }
  }

  /** What is visited along a walk is so from an entry that comes before the first ill-formed one, or from that one. */
  lemma {:induction false} VisitedAlong(c: Contents, walk: seq<string>, x: string)
    requires forall p :: p in walk ==> p in c.paths
    ensures Visits(c.groups, MembersAlong(c.paths, walk), x) <==> exists i: nat :: VisitedAt(c, walk, i, x)
  {
    if walk != [] {
      var k := |walk| - 1;
      var before := walk[..k];
      VisitedAlong(c, before, x);
      NoBadEntryAlong(c, before);
      VisitsConcat(c.groups, MembersAlong(c.paths, before), c.paths[walk[k]], x);
      assert forall j :: 0 <= j < k ==> before[j] == walk[j];
      forall i: nat | i < k
        ensures VisitedAt(c, walk, i, x) <==> VisitedAt(c, before, i, x)
      {
      }
      assert VisitedAt(c, walk, k, x) <==>
             AllWellFormed(c.groups, MembersAlong(c.paths, before)) && Visits(c.groups, c.paths[walk[k]], x);
    }
  }

  lemma {:induction false} ListOf(s: set<string>) returns (l: seq<string>)
    ensures forall x :: x in l <==> x in s
    ensures forall i, j :: 0 <= i < j < |l| ==> l[i] != l[j]
    decreases |s|
  {
    if s == {} {
      l := [];
    } else {
      var x :| x in s;
      l := ListOf(s - {x});
      l := [x] + l;
    }
  }

  lemma WalkFrom(c: Contents, p: string) returns (walk: seq<string>)
    requires p in c.paths
    ensures IsWalk(c, walk) && walk != [] && walk[0] == p
  {
    var rest := ListOf(c.paths.Keys - {p});
    walk := [p] + rest;
  }

  /** Some walk notes one of the users exactly if some entry does, when expanded first. */
  lemma SomeWalkNotesExactly(c: Contents, names: seq<string>)
    ensures (exists walk :: IsWalk(c, walk) && WalkNotes(c, walk, names)) <==>
            (exists p :: p in c.paths && EntryNotes(c, p, names))
  {
    if walk :| IsWalk(c, walk) && WalkNotes(c, walk, names) {
      var n :| n in names && Notes(c.groups, MembersAlong(c.paths, walk), n);
      VisitedAlong(c, walk, n);
      var i: nat :| VisitedAt(c, walk, i, n);
      assert walk[i] in walk && EntryNotes(c, walk[i], names);
    }
    if p :| p in c.paths && EntryNotes(c, p, names) {
      var walk := WalkFrom(c, p);
      var n :| n in names && Notes(c.groups, c.paths[p], n);
      VisitedAlong(c, walk, n);
      assert VisitedAt(c, walk, 0, n);
      assert WalkNotes(c, walk, names);
    }
  }

  /** In a file that can't be expanded, some walk notes none of them exactly if some ill-formed entry does so. */
  lemma SomeWalkNotesNoneExactly(c: Contents, names: seq<string>)
    requires !Expandable(c)
    ensures (exists walk :: IsWalk(c, walk) && !WalkNotes(c, walk, names)) <==>
            (exists p :: BadEntry(c, p) && !EntryNotes(c, p, names))
  {
    if walk :| IsWalk(c, walk) && !WalkNotes(c, walk, names) {
      var i := FirstBad(c, walk);
      forall n | n in names
        ensures !Notes(c.groups, c.paths[walk[i]], n)
      {
        VisitedAlong(c, walk, n);
        if Notes(c.groups, c.paths[walk[i]], n) {
          assert VisitedAt(c, walk, i, n);
        }
      }
      assert BadEntry(c, walk[i]) && !EntryNotes(c, walk[i], names);
    }
    if p :| BadEntry(c, p) && !EntryNotes(c, p, names) {
      var walk := WalkFrom(c, p);
      forall n | n in names
        ensures !Notes(c.groups, MembersAlong(c.paths, walk), n)
      {
        VisitedAlong(c, walk, n);
        assert forall i: nat :: VisitedAt(c, walk, i, n) ==> i == 0 || !BadEntry(c, walk[0]);
      }
      assert !WalkNotes(c, walk, names);
    }
  }

  lemma FirstBad(c: Contents, walk: seq<string>) returns (i: nat)
    requires IsWalk(c, walk) && !Expandable(c)
    ensures i < |walk| && BadEntry(c, walk[i]) && forall j :: 0 <= j < i ==> !BadEntry(c, walk[j])
  {
    var p :| p in c.paths && !AllWellFormed(c.groups, c.paths[p]);
    var k :| 0 <= k < |walk| && walk[k] == p;
    i := 0;
    while !BadEntry(c, walk[i])
      invariant i <= k && forall j :: 0 <= j < i ==> !BadEntry(c, walk[j])
      decreases k - i
    {
      i := i + 1;
    }
  }

  // ----- Order can matter

  /** A path with an owner, and another one whose owner is an undefined group. */
  const HALF_BAD := Contents(map[], map["/a" := ["x"], "/b" := ["@U"]], {})

  lemma HalfBadVisits()
    ensures !Expandable(HALF_BAD) && AllWellFormed(map[], ["x"]) && !AllWellFormed(map[], ["@U"])
    ensures forall u :: Notes(map[], ["x"], u) <==> u == "x"
    ensures forall u :: !Notes(map[], ["@U"], u)
  {
    assert "/a"[1] == 'a' && "/b"[1] == 'b';
    WellFormedIndividual(map[], "x");
    ReachesSelf(map[], "@U");
    assert IsGroup("@U") && "@U" in ["@U"] && HALF_BAD.paths["/b"] == ["@U"];
    forall u
      ensures Visits(map[], ["x"], u) <==> u == "x"
      ensures Visits(map[], ["@U"], u) <==> u == "@U"
    {
      VisitsIndividual(map[], "x", u);
      VisitsGroup(map[], "@U", u);
    }
  }

  lemma HalfBadWalks()
    ensures IsWalk(HALF_BAD, ["/a", "/b"]) && MembersAlong(HALF_BAD.paths, ["/a", "/b"]) == ["x"] + ["@U"]
    ensures IsWalk(HALF_BAD, ["/b", "/a"]) && MembersAlong(HALF_BAD.paths, ["/b", "/a"]) == ["@U"] + ["x"]
  {
    assert "/a"[1] == 'a' && "/b"[1] == 'b';
    var v, w := ["/a", "/b"], ["/b", "/a"];
    assert v[0] == "/a" && v[1] == "/b" && w[0] == "/b" && w[1] == "/a";
    assert v[..1] == ["/a"] && w[..1] == ["/b"] && ["/a"][..0] == ["/b"][..0] == [];
    assert MembersAlong(HALF_BAD.paths, ["/a"]) == [] + ["x"];
    assert MembersAlong(HALF_BAD.paths, ["/b"]) == [] + ["@U"];
  }

  /**
   * Failing at once, expansion notes nobody and changes nothing; failing later, it notes the other owner.
   * So expanding in the first order and then again in the second is not the same as expanding once.
   */
  lemma OrderDecidesUsers()
    ensures !Expandable(HALF_BAD)
    ensures IsWalk(HALF_BAD, ["/a", "/b"]) && WalkNotes(HALF_BAD, ["/a", "/b"], ["x"])
    ensures IsWalk(HALF_BAD, ["/b", "/a"]) && !WalkNotes(HALF_BAD, ["/b", "/a"], ["x"])
    ensures Expansion(HALF_BAD, ["/b", "/a"], HALF_BAD, false)
    ensures Expansion(HALF_BAD, ["/a", "/b"], HALF_BAD.(users := {"x"}), false)
  {
    HalfBadVisits();
    HalfBadWalks();
    assert "x" in ["x"];
    forall u
      ensures Notes(map[], ["x"] + ["@U"], u) <==> u == "x"
      ensures !Notes(map[], ["@U"] + ["x"], u)
    {
      VisitsConcat(map[], ["x"], ["@U"], u);
      VisitsConcat(map[], ["@U"], ["x"], u);
      assert (Notes(map[], ["x"], u) <==> u == "x") && !Notes(map[], ["@U"], u);
    }
  }
}

/** When the order in which paths are walked matters to an expansion that fails, told from the file alone. */
module ExpansionOrder {
  import opened FileExpansion
  import opened GroupExpansion
  import opened GroupGraph
  import opened GroupVisits
  import opened Ordering

  /** Expanding entry `q` first does nothing that expanding entry `p` first doesn't do, or that was not done before. */
  ghost predicate AddsNothingTo(c: Contents, p: string, q: string)
    requires p in c.paths && q in c.paths
  {
    && (forall u :: Notes(c.groups, c.paths[q], u) ==> Notes(c.groups, c.paths[p], u) || u in c.users)
    && (forall h :: h in c.groups && Completes(c.groups, c.paths[q], h) ==>
                      Completes(c.groups, c.paths[p], h) || FlatGroup(c.groups, h, c.groups[h]))
  }

  /** Each ill-formed entry, on its own, does all that any entry does. */
  ghost predicate BadEntriesDoItAll(c: Contents) {
    forall p, q :: BadEntry(c, p) && q in c.paths ==> AddsNothingTo(c, p, q)
  }

  /** What any entry visits, the second walk included, a walk visits that gets to an entry which does. */
  lemma WalksAddNothing(c: Contents, v: seq<string>, w: seq<string>)
    requires !Expandable(c) && BadEntriesDoItAll(c) && IsWalk(c, v) && IsWalk(c, w)
    ensures !AddsMore(c, v, w)
  {
    var k := FirstBad(c, v);
    var p := v[k];
    forall x | Visits(c.groups, c.paths[p], x)
      ensures Visits(c.groups, MembersAlong(c.paths, v), x)
    {
      VisitedAlong(c, v, x);
      assert VisitedAt(c, v, k, x);
    }
    forall u | Notes(c.groups, MembersAlong(c.paths, w), u)
      ensures Notes(c.groups, MembersAlong(c.paths, v), u) || u in c.users
    {
      VisitedAlong(c, w, u);
      var i: nat :| VisitedAt(c, w, i, u);
      assert w[i] in w && AddsNothingTo(c, p, w[i]) && Notes(c.groups, c.paths[w[i]], u);
    }
    forall h | h in c.groups && Completes(c.groups, MembersAlong(c.paths, w), h)
      ensures Completes(c.groups, MembersAlong(c.paths, v), h) || FlatGroup(c.groups, h, c.groups[h])
    {
      VisitedAlong(c, w, h);
      var i: nat :| VisitedAt(c, w, i, h);
      assert w[i] in w && AddsNothingTo(c, p, w[i]) && Completes(c.groups, c.paths[w[i]], h);
    }
  }

  /** A walk that begins with an entry visits what that entry does, and nothing else if the entry is ill-formed. */
  lemma FirstEntryVisits(c: Contents, walk: seq<string>, x: string)
    requires IsWalk(c, walk) && walk != []
    ensures Visits(c.groups, c.paths[walk[0]], x) ==> Visits(c.groups, MembersAlong(c.paths, walk), x)
    ensures BadEntry(c, walk[0]) && Visits(c.groups, MembersAlong(c.paths, walk), x) ==>
              Visits(c.groups, c.paths[walk[0]], x)
  {
    VisitedAlong(c, walk, x);
    if Visits(c.groups, c.paths[walk[0]], x) {
      assert VisitedAt(c, walk, 0, x);
    }
    if BadEntry(c, walk[0]) && Visits(c.groups, MembersAlong(c.paths, walk), x) {
      var i: nat :| VisitedAt(c, walk, i, x);
      assert i == 0;
    }
  }

  lemma WalksThatAddNothing(c: Contents, v: seq<string>, w: seq<string>)
    requires IsWalk(c, v) && IsWalk(c, w) && v != [] && w != [] && BadEntry(c, v[0]) && !AddsMore(c, v, w)
    ensures AddsNothingTo(c, v[0], w[0])
  {
    forall x
      ensures Visits(c.groups, c.paths[w[0]], x) ==> Visits(c.groups, MembersAlong(c.paths, w), x)
      ensures Visits(c.groups, MembersAlong(c.paths, v), x) ==> Visits(c.groups, c.paths[v[0]], x)
    {
      FirstEntryVisits(c, v, x);
      FirstEntryVisits(c, w, x);
    }
    forall u | Notes(c.groups, c.paths[w[0]], u)
      ensures Notes(c.groups, c.paths[v[0]], u) || u in c.users
    {
      assert Notes(c.groups, MembersAlong(c.paths, w), u);
    }
    forall h | h in c.groups && Completes(c.groups, c.paths[w[0]], h)
      ensures Completes(c.groups, c.paths[v[0]], h) || FlatGroup(c.groups, h, c.groups[h])
    {
      assert Completes(c.groups, MembersAlong(c.paths, w), h);
    }
  }

  ghost predicate NoWalkAddsMore(c: Contents) {
    forall v, w :: IsWalk(c, v) && IsWalk(c, w) ==> !AddsMore(c, v, w)
  }

  /**
   * In a file that can't be expanded, no walk adds anything to any other one (so expanding twice is expanding once,
   * whatever the orders) exactly if each ill-formed entry, on its own, does all that any entry does.
   */
  lemma NoWalkAddsMoreExactly(c: Contents)
    requires !Expandable(c)
    ensures NoWalkAddsMore(c) <==> BadEntriesDoItAll(c)
  {
    if BadEntriesDoItAll(c) {
      forall v, w | IsWalk(c, v) && IsWalk(c, w)
        ensures !AddsMore(c, v, w)
      {
        WalksAddNothing(c, v, w);
      }
    }
    if NoWalkAddsMore(c) {
      forall p, q | BadEntry(c, p) && q in c.paths
        ensures AddsNothingTo(c, p, q)
      {
        var v := WalkFrom(c, p);
        var w := WalkFrom(c, q);
        WalksThatAddNothing(c, v, w);
      }
    }
  }

  // ----- The outcome itself

  /** Two walks have the same outcome exactly if neither adds anything to the other. */
  lemma FailedOutcomesAgreeExactly(c: Contents, v: seq<string>, w: seq<string>, a: Contents, b: Contents)
    requires Expansion(c, v, a, false) && Expansion(c, w, b, false)
    ensures a == b <==> !AddsMore(c, v, w) && !AddsMore(c, w, v)
  {
    var g, first, second := c.groups, MembersAlong(c.paths, v), MembersAlong(c.paths, w);
    if !AddsMore(c, v, w) && !AddsMore(c, w, v) {
      forall h | h in g
        ensures a.groups[h] == b.groups[h]
      {
        if Completes(g, first, h) || Completes(g, second, h) {
          assert FlatGroup(g, h, a.groups[h]) && FlatGroup(g, h, b.groups[h]);
          SameListing(g, h, a.groups[h], b.groups[h]);
        }
      }
      assert a.groups == b.groups && a.paths == b.paths;
      assert forall u :: u in a.users <==> u in b.users;
    }
  }

  ghost function Mentioned(g: Groups): set<string> {
    set h, m | h in g && m in g[h] :: m
  }

  lemma ReachedIsMentioned(g: Groups, n: string, x: string)
    requires Reaches(g, n, x)
    ensures x == n || x in Mentioned(g)
  {
    var p :| ChainTo(g, p, n, x);
    if x != n {
      assert Edge(g, p[|p| - 2], p[|p| - 1]);
    }
  }

  /** The listing that overwrites a group. */
  lemma ListingExists(g: Groups, h: string)
    requires WellFormedFrom(g, h) && AcyclicFrom(g, h)
    ensures exists s :: FlatGroup(g, h, s)
  {
    var users := set u | u in Mentioned(g) + {h} && UserOf(g, h, u);
    var l := ListOf(users);
    var s := SortCompact(l);
    forall u
      ensures u in s <==> UserOf(g, h, u)
    {
      if UserOf(g, h, u) {
        ReachedIsMentioned(g, h, u);
      }
    }
    var u := GroupHasUser(g, h);
    assert u in s;
    assert FlatGroup(g, h, s);
  }

  ghost function Listing(g: Groups, h: string): (s: seq<string>)
    requires WellFormedFrom(g, h) && AcyclicFrom(g, h)
    ensures FlatGroup(g, h, s)
  {
    ListingExists(g, h);
    var s :| FlatGroup(g, h, s);
    s
  }

  lemma VisitedIsAcyclic(c: Contents, walk: seq<string>, x: string)
    requires Terminates(c) && IsWalk(c, walk) && Visits(c.groups, MembersAlong(c.paths, walk), x)
    ensures AcyclicFrom(c.groups, x)
  {
    VisitedIsReached(c.groups, MembersAlong(c.paths, walk), x);
    var n :| n in MembersAlong(c.paths, walk) && Reaches(c.groups, n, x);
    AlongHasMembers(c.paths, walk, n);
    AcyclicBelow(c.groups, n, x);
  }

  /** Every walk over a file on which expansion fails, and terminates, has an outcome. */
  lemma FailedOutcomeExists(c: Contents, walk: seq<string>) returns (after: Contents)
    requires Terminates(c) && !Expandable(c) && IsWalk(c, walk)
    ensures Expansion(c, walk, after, false)
  {
    var g, all := c.groups, MembersAlong(c.paths, walk);
    forall x | Visits(g, all, x)
      ensures AcyclicFrom(g, x) && x in Mentioned(g) + set n | n in all
    {
      VisitedIsAcyclic(c, walk, x);
      VisitedIsReached(g, all, x);
      var n :| n in all && Reaches(g, n, x);
      ReachedIsMentioned(g, n, x);
    }
    var users := set u | u in Mentioned(g) + (set n | n in all) && Notes(g, all, u);
    after := Contents(map h | h in g :: if Completes(g, all, h) then Listing(g, h) else g[h], c.paths, c.users + users);
  }

  ghost predicate OneOutcome(c: Contents) {
    forall v, w, a, b :: Expansion(c, v, a, false) && Expansion(c, w, b, false) ==> a == b
  }

  /**
   * A file on which expansion fails has the same outcome for all orders exactly if each of its ill-formed entries,
   * on its own, does all that any entry does.
   */
  lemma FailureIgnoresOrderExactly(c: Contents)
    requires Terminates(c) && !Expandable(c)
    ensures OneOutcome(c) <==> BadEntriesDoItAll(c)
  {
    NoWalkAddsMoreExactly(c);
    if BadEntriesDoItAll(c) {
      forall v, w, a, b | Expansion(c, v, a, false) && Expansion(c, w, b, false)
        ensures a == b
      {
        FailedOutcomesAgreeExactly(c, v, w, a, b);
      }
    }
    if OneOutcome(c) {
      forall v, w | IsWalk(c, v) && IsWalk(c, w)
        ensures !AddsMore(c, v, w)
      {
        var a := FailedOutcomeExists(c, v);
        var b := FailedOutcomeExists(c, w);
        FailedOutcomesAgreeExactly(c, v, w, a, b);
      }
    }
  }

  ghost predicate TwiceIsOnce(c: Contents) {
    forall v, once, w, twice, ok ::
      Expansion(c, v, once, false) && Expansion(once, w, twice, ok) ==> twice == once
  }

  /** Expanding it again, in whatever orders, changes nothing exactly on the same condition. */
  lemma FailureIsIdempotentExactly(c: Contents)
    requires Terminates(c) && !Expandable(c)
    ensures TwiceIsOnce(c) <==> BadEntriesDoItAll(c)
  {
    NoWalkAddsMoreExactly(c);
    if BadEntriesDoItAll(c) {
      forall v, once, w, twice, ok | Expansion(c, v, once, false) && Expansion(once, w, twice, ok)
        ensures twice == once
      {
        FailedExpansionIsIdempotentExactly(c, v, once, w, twice, ok);
      }
    }
    if TwiceIsOnce(c) {
      forall v, w | IsWalk(c, v) && IsWalk(c, w)
        ensures !AddsMore(c, v, w)
      {
        var once := FailedOutcomeExists(c, v);
        ExpandableAgain(c, v, once);
        var twice := FailedOutcomeExists(once, w);
        FailedExpansionIsIdempotentExactly(c, v, once, w, twice, false);
      }
    }
  }

  /** After a failed expansion, expansion still terminates, and still fails. */
  lemma ExpandableAgain(c: Contents, walk: seq<string>, after: Contents)
    requires Terminates(c) && Expansion(c, walk, after, false)
    ensures Terminates(after) && !Expandable(after)
  {
    ExpansionIsMemo(c, walk, after, false);
    forall p, n | p in after.paths && n in after.paths[p]
      ensures AcyclicFrom(after.groups, n)
    {
      MemoKeepsAcyclic(c.groups, after.groups, n);
    }
    var p :| p in c.paths && !AllWellFormed(c.groups, c.paths[p]);
    var n :| n in c.paths[p] && !WellFormedFrom(c.groups, n);
    MemoKeepsWellFormedness(c.groups, after.groups, n);
    assert n in after.paths[p];
  }
}

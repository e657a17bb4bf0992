/** What memoised group expansion may do to the groups map, and what it can never change. */
module GroupExpansion {
  import opened GroupGraph
  import opened Ordering

  /** `s` lists exactly the users that group `h` stands for. */
  ghost predicate FlatGroup(g: Groups, h: string, s: seq<string>) {
    s != [] && StrictlySorted(s) && forall u :: u in s <==> UserOf(g, h, u)
  }

  /** `s` lists exactly the users that the names stand for. */
  ghost predicate FlatOf(g: Groups, names: seq<string>, s: seq<string>) {
    StrictlySorted(s) && forall u :: u in s <==> UserOfAny(g, names, u)
  }

  /** `cur` is `g` with any of its well-formed groups overwritten by the users they stand for. */
  ghost predicate Memo(g: Groups, cur: Groups) {
    && cur.Keys == g.Keys
    && forall h :: h in g ==> cur[h] == g[h] || (IsGroup(h) && WellFormedFrom(g, h) && FlatGroup(g, h, cur[h]))
  }

  /** An overwritten group only has flat groups below it: they were expanded first. */
  ghost predicate Settled(g: Groups, cur: Groups) {
    forall h, k :: h in g && h in cur && cur[h] != g[h] && IsGroup(k) && Reaches(g, h, k) ==>
                     k in cur && FlatGroup(g, k, cur[k])
  }

  lemma FlatListingsAgree(g: Groups, names: seq<string>, s: seq<string>, t: seq<string>)
    requires FlatOf(g, names, s) && FlatOf(g, names, t)
    ensures s == t
  {
    SortedListingIsUnique(s, t);
  }

  // ----- Overwriting keeps the meaning

  lemma {:induction false} UserChainToOriginal(g: Groups, cur: Groups, p: seq<string>, a: string, u: string)
    requires Memo(g, cur) && !IsGroup(u) && ChainTo(cur, p, a, u)
    ensures UserOf(g, a, u)
    decreases |p|
  {
    if |p| == 1 {
      ReachesSelf(g, a);
    } else {
      assert Edge(cur, a, p[1]);
      assert ChainTo(cur, p[1..], p[1], u);
      UserChainToOriginal(g, cur, p[1..], p[1], u);
      if cur[a] == g[a] {
        EdgeThenReaches(g, a, p[1], u);
      } else {
        UserOfIndividual(g, p[1], u);
      }
    }
  }

  lemma {:induction false} UserChainToMemo(g: Groups, cur: Groups, p: seq<string>, a: string, u: string)
    requires Memo(g, cur) && !IsGroup(u) && ChainTo(g, p, a, u)
    ensures UserOf(cur, a, u)
    decreases |p|
  {
    if |p| == 1 {
      ReachesSelf(cur, a);
    } else {
      assert Edge(g, a, p[1]);
      assert ChainTo(g, p[1..], p[1], u);
      if cur[a] == g[a] {
        UserChainToMemo(g, cur, p[1..], p[1], u);
        EdgeThenReaches(cur, a, p[1], u);
      } else {
        assert UserOf(g, a, u);
        ReachesSelf(cur, u);
        EdgeThenReaches(cur, a, u, u);
      }
    }
  }

  /** However many groups have been overwritten, every name stands for the same users. */
  lemma MemoKeepsUsers(g: Groups, cur: Groups, name: string, u: string)
    requires Memo(g, cur)
    ensures UserOf(cur, name, u) <==> UserOf(g, name, u)
  {
    if UserOf(cur, name, u) {
      var p :| ChainTo(cur, p, name, u);
      UserChainToOriginal(g, cur, p, name, u);
    }
    if UserOf(g, name, u) {
      var p :| ChainTo(g, p, name, u);
      UserChainToMemo(g, cur, p, name, u);
    }
  }

  lemma {:induction false} GroupChainToOriginal(g: Groups, cur: Groups, p: seq<string>, a: string, h: string)
    requires Memo(g, cur) && IsGroup(h) && ChainTo(cur, p, a, h)
    ensures Reaches(g, a, h)
    decreases |p|
  {
    if |p| == 1 {
      ReachesSelf(g, a);
    } else {
      assert Edge(cur, a, p[1]);
      assert ChainTo(cur, p[1..], p[1], h);
      assert IsGroup(p[1]) by {
        if |p| > 2 {
          assert Edge(cur, p[1], p[2]);
        }
      }
      GroupChainToOriginal(g, cur, p[1..], p[1], h);
      EdgeThenReaches(g, a, p[1], h);
    }
  }

  lemma {:induction false} IllFormedStaysReachable(g: Groups, cur: Groups, p: seq<string>, a: string, h: string)
    requires Memo(g, cur) && IsGroup(h) && ChainTo(g, p, a, h) && !(h in g && g[h] != [])
    ensures !WellFormedFrom(cur, a)
    decreases |p|
  {
    if |p| == 1 {
      ReachesSelf(cur, a);
      ReachesSelf(g, a);
    } else {
      assert Edge(g, a, p[1]);
      assert ChainTo(g, p[1..], p[1], h);
      IllFormedStaysReachable(g, cur, p[1..], p[1], h);
      assert Reaches(g, a, h);
      var k :| IsGroup(k) && Reaches(cur, p[1], k) && !(k in cur && cur[k] != []);
      EdgeThenReaches(cur, a, p[1], k);
    }
  }

  lemma MemoKeepsWellFormedness(g: Groups, cur: Groups, name: string)
    requires Memo(g, cur)
    ensures WellFormedFrom(cur, name) <==> WellFormedFrom(g, name)
  {
    if WellFormedFrom(g, name) {
      forall h | IsGroup(h) && Reaches(cur, name, h)
        ensures h in cur && cur[h] != []
      {
        var p :| ChainTo(cur, p, name, h);
        GroupChainToOriginal(g, cur, p, name, h);
      }
    } else {
      var h :| IsGroup(h) && Reaches(g, name, h) && !(h in g && g[h] != []);
      var p :| ChainTo(g, p, name, h);
      IllFormedStaysReachable(g, cur, p, name, h);
    }
  }

  lemma CycleInOriginal(g: Groups, cur: Groups, h: string)
    requires Memo(g, cur) && OnCycle(cur, h)
    ensures OnCycle(g, h)
  {
    var b :| Edge(cur, h, b) && Reaches(cur, b, h);
    var q :| ChainTo(cur, q, b, h);
    GroupChainToOriginal(g, cur, q, b, h);
    assert IsGroup(b) by {
      if |q| > 1 {
        assert Edge(cur, b, q[1]);
      }
    }
    assert Edge(g, h, b);
  }

  lemma MemoKeepsAcyclic(g: Groups, cur: Groups, name: string)
    requires Memo(g, cur) && AcyclicFrom(g, name)
    ensures AcyclicFrom(cur, name)
  {
    forall h | OnCycle(cur, h) && Reaches(cur, name, h)
      ensures false
    {
      var p :| ChainTo(cur, p, name, h);
      GroupChainToOriginal(g, cur, p, name, h);
      CycleInOriginal(g, cur, h);
    }
  }

  lemma MemoKeepsFlat(g: Groups, cur: Groups, names: seq<string>, s: seq<string>)
    requires Memo(g, cur)
    ensures FlatOf(cur, names, s) <==> FlatOf(g, names, s)
  {
    forall n, u
      ensures UserOf(cur, n, u) <==> UserOf(g, n, u)
    {
      MemoKeepsUsers(g, cur, n, u);
    }
    forall u
      ensures UserOfAny(cur, names, u) <==> UserOfAny(g, names, u)
    {
      if UserOfAny(cur, names, u) {
        var n :| n in names && UserOf(cur, n, u);
        assert UserOf(g, n, u);
      }
      if UserOfAny(g, names, u) {
        var n :| n in names && UserOf(g, n, u);
        assert UserOf(cur, n, u);
      }
    }
  }

  /** A flat list of users is its own expansion. */
  lemma UsersExpandToThemselves(g: Groups, names: seq<string>, s: seq<string>)
    requires FlatOf(g, names, s)
    ensures FlatOf(g, s, s) && AllWellFormed(g, s)
  {
    forall n | n in s
      ensures !IsGroup(n) && WellFormedFrom(g, n)
    {
      WellFormedIndividual(g, n);
    }
    forall u
      ensures u in s <==> UserOfAny(g, s, u)
    {
      if u in s {
        UserOfIndividual(g, u, u);
      }
      if UserOfAny(g, s, u) {
        var n :| n in s && UserOf(g, n, u);
        UserOfIndividual(g, n, u);
      }
    }
  }

  /** Expanding the members of a group, overwritten or not, lists the users of the group. */
  lemma MembersListGroup(g: Groups, cur: Groups, h: string, expanded: seq<string>)
    requires Memo(g, cur) && IsGroup(h) && h in cur && cur[h] != []
    requires AllWellFormed(g, cur[h]) && FlatOf(g, cur[h], expanded) && expanded != []
    ensures WellFormedFrom(g, h) && FlatGroup(g, h, expanded)
  {
    if cur[h] == g[h] {
      WellFormedGroup(g, h);
      forall u
        ensures u in expanded <==> UserOf(g, h, u)
      {
        UserOfGroup(g, h, u);
      }
    } else {
      OverwrittenExpandsToItself(g, cur, h);
      FlatListingsAgree(g, cur[h], cur[h], expanded);
    }
  }

  lemma OverwrittenExpandsToItself(g: Groups, cur: Groups, h: string)
    requires Memo(g, cur) && h in cur && cur[h] != g[h]
    ensures FlatOf(g, cur[h], cur[h]) && AllWellFormed(g, cur[h])
  {
    forall u
      ensures u in cur[h] <==> UserOfAny(g, [h], u)
    {
    }
    UsersExpandToThemselves(g, [h], cur[h]);
  }

  /** Going down from a group, overwritten or not, stays within what the group reached at first. */
  lemma MembersBelowGroup(g: Groups, cur: Groups, h: string)
    requires Memo(g, cur) && IsGroup(h) && h in cur && AcyclicFrom(g, h)
    ensures BelowAny(g, cur[h]) < Below(g, h) && AllAcyclic(g, cur[h])
    ensures forall m :: m in cur[h] ==> Reaches(g, h, m)
  {
    MembersShrink(g, h);
    if cur[h] == g[h] {
      forall m | m in g[h]
        ensures Reaches(g, h, m)
      {
        ReachesSelf(g, m);
        EdgeThenReaches(g, h, m, m);
      }
    } else {
      forall m | m in cur[h]
        ensures m != h && Reaches(g, h, m)
      {
        assert UserOf(g, h, m);
      }
      ListShrinks(g, h, cur[h]);
    }
  }
}

/**
 * CODEOWNERS groups as a graph: what it means for a name to stand for a user, independently of how the
 * program finds out. Names that start with "@" are groups, all others are individual users.
 */
module GroupGraph {

  type Groups = map<string, seq<string>>

  predicate IsGroup(name: string) {
    name != "" && name[0] == '@'
  }

  ghost predicate Edge(g: Groups, a: string, b: string) {
    IsGroup(a) && a in g && b in g[a]
  }

  ghost predicate Chain(g: Groups, p: seq<string>) {
    p != [] && forall i :: 0 <= i < |p| - 1 ==> Edge(g, p[i], p[i + 1])
  }

  ghost predicate ChainTo(g: Groups, p: seq<string>, a: string, b: string) {
    Chain(g, p) && p[0] == a && p[|p| - 1] == b
  }

  ghost predicate Reaches(g: Groups, a: string, b: string) {
    exists p :: ChainTo(g, p, a, b)
  }

  lemma ReachesSelf(g: Groups, a: string)
    ensures Reaches(g, a, a)
  {
    assert ChainTo(g, [a], a, a);
  }

  lemma EdgeThenReaches(g: Groups, a: string, b: string, c: string)
    requires Edge(g, a, b) && Reaches(g, b, c)
    ensures Reaches(g, a, c)
  {
    var p :| ChainTo(g, p, b, c);
    var q := [a] + p;
    assert forall i :: 1 <= i < |q| ==> q[i] == p[i - 1];
    assert ChainTo(g, q, a, c);
  }

  lemma FirstStep(g: Groups, a: string, c: string) returns (b: string)
    requires Reaches(g, a, c) && a != c
    ensures Edge(g, a, b) && Reaches(g, b, c)
  {
    var p :| ChainTo(g, p, a, c);
    b := p[1];
    assert ChainTo(g, p[1..], b, c);
  }

  /** Reachability unfolds along the first edge. */
  lemma ReachesUnfolds(g: Groups, a: string, c: string)
    ensures Reaches(g, a, c) <==> a == c || exists b :: Edge(g, a, b) && Reaches(g, b, c)
  {
    if a == c {
      ReachesSelf(g, a);
    } else if Reaches(g, a, c) {
      var b := FirstStep(g, a, c);
    } else if b :| Edge(g, a, b) && Reaches(g, b, c) {
      EdgeThenReaches(g, a, b, c);
    }
  }

  lemma ReachesTransitive(g: Groups, a: string, b: string, c: string)
    requires Reaches(g, a, b) && Reaches(g, b, c)
    ensures Reaches(g, a, c)
  {
    var p :| ChainTo(g, p, a, b);
    var q :| ChainTo(g, q, b, c);
    var r := p + q[1..];
    forall i | 0 <= i < |r| - 1
      ensures Edge(g, r[i], r[i + 1])
    {
      if i < |p| - 1 {
        assert r[i] == p[i] && r[i + 1] == p[i + 1];
      } else {
        var k := i - (|p| - 1);
        assert r[i] == q[k] && r[i + 1] == q[k + 1];
      }
    }
    assert ChainTo(g, r, a, c);
  }

  // ----- Cycles

  ghost predicate OnCycle(g: Groups, a: string) {
    exists b :: Edge(g, a, b) && Reaches(g, b, a)
  }

  /** No group that can be reached from `a` contains itself, at any depth. */
  ghost predicate AcyclicFrom(g: Groups, a: string) {
    forall h :: Reaches(g, a, h) ==> !OnCycle(g, h)
  }

  ghost predicate AllAcyclic(g: Groups, names: seq<string>) {
    forall n :: n in names ==> AcyclicFrom(g, n)
  }

  /** The defined names at or below `a`: the termination measure of every recursion over groups. */
  ghost function Below(g: Groups, a: string): set<string> {
    set h | h in g.Keys && Reaches(g, a, h)
  }

  ghost function BelowAny(g: Groups, names: seq<string>): set<string> {
    set h | h in g.Keys && exists n :: n in names && Reaches(g, n, h)
  }

  lemma AcyclicBelow(g: Groups, a: string, b: string)
    requires AcyclicFrom(g, a) && Reaches(g, a, b)
    ensures AcyclicFrom(g, b)
  {
    forall h | Reaches(g, b, h)
      ensures !OnCycle(g, h)
    {
      ReachesTransitive(g, a, b, h);
    }
  }

  lemma NotBackAgain(g: Groups, a: string, b: string)
    requires AcyclicFrom(g, a) && Reaches(g, a, b) && a != b
    ensures !Reaches(g, b, a)
  {
    if Reaches(g, b, a) {
      var c := FirstStep(g, a, b);
      ReachesTransitive(g, c, b, a);
      ReachesSelf(g, a);
      assert OnCycle(g, a);
    }
  }

  lemma BelowShrinks(g: Groups, a: string, b: string)
    requires a in g && AcyclicFrom(g, a) && Reaches(g, a, b) && a != b
    ensures Below(g, b) < Below(g, a) && AcyclicFrom(g, b)
  {
    AcyclicBelow(g, a, b);
    forall h | h in Below(g, b)
      ensures h in Below(g, a)
    {
      ReachesTransitive(g, a, b, h);
    }
    ReachesSelf(g, a);
    NotBackAgain(g, a, b);
    assert a in Below(g, a) && a !in Below(g, b);
  }

  lemma BelowAnyOne(g: Groups, names: seq<string>, a: string)
    requires a in names
    ensures Below(g, a) <= BelowAny(g, names)
  {
  }

  lemma ListShrinks(g: Groups, a: string, names: seq<string>)
    requires a in g && AcyclicFrom(g, a)
    requires forall m :: m in names ==> m != a && Reaches(g, a, m)
    ensures BelowAny(g, names) < Below(g, a) && AllAcyclic(g, names)
  {
    ReachesSelf(g, a);
    forall m | m in names
      ensures Below(g, m) < Below(g, a) && AcyclicFrom(g, m) && a !in Below(g, m)
    {
      BelowShrinks(g, a, m);
      NotBackAgain(g, a, m);
    }
    forall h | h in BelowAny(g, names)
      ensures h in Below(g, a)
    {
      var m :| m in names && Reaches(g, m, h);
      assert h in Below(g, m);
    }
    assert a in Below(g, a) && a !in BelowAny(g, names);
  }

  lemma MembersShrink(g: Groups, a: string)
    requires IsGroup(a) && a in g && AcyclicFrom(g, a)
    ensures BelowAny(g, g[a]) < Below(g, a) && AllAcyclic(g, g[a])
  {
    ReachesSelf(g, a);
    forall m | m in g[a]
      ensures m != a && Reaches(g, a, m)
    {
      ReachesSelf(g, m);
      EdgeThenReaches(g, a, m, m);
      assert !OnCycle(g, a) && Edge(g, a, m);
    }
    ListShrinks(g, a, g[a]);
  }

  // ----- The users a name stands for

  ghost predicate UserOf(g: Groups, name: string, u: string) {
    !IsGroup(u) && Reaches(g, name, u)
  }

  ghost predicate UserOfAny(g: Groups, names: seq<string>, u: string) {
    exists n :: n in names && UserOf(g, n, u)
  }

  lemma UserOfIndividual(g: Groups, name: string, u: string)
    requires !IsGroup(name)
    ensures UserOf(g, name, u) <==> name == u
  {
    ReachesUnfolds(g, name, u);
  }

  lemma UserOfGroup(g: Groups, h: string, u: string)
    requires IsGroup(h)
    ensures UserOf(g, h, u) <==> h in g && UserOfAny(g, g[h], u)
  {
    ReachesUnfolds(g, h, u);
    if h in g && UserOfAny(g, g[h], u) {
      var m :| m in g[h] && UserOf(g, m, u);
      assert Edge(g, h, m);
    }
    if UserOf(g, h, u) {
      var b := FirstStep(g, h, u);
      assert b in g[h] && UserOf(g, b, u);
    }
  }

  /** Every group at or below `name` is defined and has at least one member. */
  ghost predicate WellFormedFrom(g: Groups, name: string) {
    forall h :: IsGroup(h) && Reaches(g, name, h) ==> h in g && g[h] != []
  }

  ghost predicate AllWellFormed(g: Groups, names: seq<string>) {
    forall n :: n in names ==> WellFormedFrom(g, n)
  }

  lemma WellFormedIndividual(g: Groups, name: string)
    requires !IsGroup(name)
    ensures WellFormedFrom(g, name)
  {
    forall h | IsGroup(h) && Reaches(g, name, h)
      ensures false
    {
      ReachesUnfolds(g, name, h);
    }
  }

  lemma WellFormedGroup(g: Groups, h: string)
    requires IsGroup(h)
    ensures WellFormedFrom(g, h) <==> h in g && g[h] != [] && AllWellFormed(g, g[h])
  {
    ReachesSelf(g, h);
    if WellFormedFrom(g, h) {
      forall m, k | m in g[h] && IsGroup(k) && Reaches(g, m, k)
        ensures k in g && g[k] != []
      {
        EdgeThenReaches(g, h, m, k);
      }
    }
    if h in g && g[h] != [] && AllWellFormed(g, g[h]) {
      forall k | IsGroup(k) && Reaches(g, h, k) && k != h
        ensures k in g && g[k] != []
      {
        var m := FirstStep(g, h, k);
        assert WellFormedFrom(g, m);
      }
    }
  }

  lemma WellFormedBelow(g: Groups, a: string, b: string)
    requires WellFormedFrom(g, a) && Reaches(g, a, b)
    ensures WellFormedFrom(g, b)
  {
    forall h | IsGroup(h) && Reaches(g, b, h)
      ensures h in g && g[h] != []
    {
      ReachesTransitive(g, a, b, h);
    }
  }

  /** Well-formed groups that aren't cyclic stand for someone. */
  lemma {:induction false} GroupHasUser(g: Groups, name: string) returns (u: string)
    requires WellFormedFrom(g, name) && AcyclicFrom(g, name)
    ensures UserOf(g, name, u)
    decreases Below(g, name)
  {
    ReachesSelf(g, name);
    if IsGroup(name) {
      var m := g[name][0];
      ReachesSelf(g, m);
      assert Edge(g, name, m);
      EdgeThenReaches(g, name, m, m);
      assert !OnCycle(g, name) && !Reaches(g, m, name);
      BelowShrinks(g, name, m);
      WellFormedBelow(g, name, m);
      u := GroupHasUser(g, m);
      UserOfGroup(g, name, u);
    } else {
      u := name;
    }
  }
}

/**
 * How far group expansion gets. It visits members in order, and the first one that turns out to be ill-formed ends
 * it all, so what was visited until then depends on the order.
 */
module GroupVisits {
  import opened GroupExpansion
  import opened GroupGraph

  /** The names up to the first ill-formed one, which is included. */
  ghost function UpToBad(g: Groups, names: seq<string>): seq<string> {
    if names == [] then []
    else if WellFormedFrom(g, names[0]) then [names[0]] + UpToBad(g, names[1..])
    else [names[0]]
  }

  /** The groups, with no more members than expansion gets to. */
  ghost function Pruned(g: Groups): Groups {
    map h | h in g :: UpToBad(g, g[h])
  }

  /** Expanding the names in order comes across `x`, a user or a group, before it ends or fails. */
  ghost predicate Visits(g: Groups, names: seq<string>, x: string) {
    exists n :: n in UpToBad(g, names) && Reaches(Pruned(g), n, x)
  }

  /** Expanding the names in order completes the expansion of `h`, and hence overwrites it. */
  ghost predicate Completes(g: Groups, names: seq<string>, h: string) {
    IsGroup(h) && WellFormedFrom(g, h) && Visits(g, names, h)
  }

  /** Expanding the names in order comes across a user, who is then noted. */
  ghost predicate Notes(g: Groups, names: seq<string>, u: string) {
    !IsGroup(u) && Visits(g, names, u)
  }

  ghost predicate ReachedFrom(g: Groups, names: seq<string>, h: string) {
    exists n :: n in names && Reaches(g, n, h)
  }

  // ----- Up to the first ill-formed name

  lemma {:induction false} UpToBadConcat(g: Groups, a: seq<string>, b: seq<string>)
    ensures UpToBad(g, a + b) == if AllWellFormed(g, a) then a + UpToBad(g, b) else UpToBad(g, a)
  {
    if a == [] {
      assert a + b == b && a + UpToBad(g, b) == UpToBad(g, b);
    } else {
      assert a == [a[0]] + a[1..] && (a + b)[1..] == a[1..] + b;
      UpToBadConcat(g, a[1..], b);
      if AllWellFormed(g, a) {
        assert [a[0]] + (a[1..] + UpToBad(g, b)) == a + UpToBad(g, b);
      }
    }
  }

  lemma UpToBadOfWellFormed(g: Groups, names: seq<string>)
    requires AllWellFormed(g, names)
    ensures UpToBad(g, names) == names
  {
    UpToBadConcat(g, names, []);
    assert names + [] == names;
  }

  lemma {:induction false} UpToBadIsPart(g: Groups, names: seq<string>, n: string)
    requires n in UpToBad(g, names)
    ensures n in names
  {
    if n != names[0] {
      UpToBadIsPart(g, names[1..], n);
    }
  }

  // ----- What is visited

  lemma PrunedIsSmaller(g: Groups, a: string, b: string)
    requires Reaches(Pruned(g), a, b)
    ensures Reaches(g, a, b)
  {
    var p :| ChainTo(Pruned(g), p, a, b);
    forall i | 0 <= i < |p| - 1
      ensures Edge(g, p[i], p[i + 1])
    {
      assert Edge(Pruned(g), p[i], p[i + 1]);
      UpToBadIsPart(g, g[p[i]], p[i + 1]);
    }
    assert ChainTo(g, p, a, b);
  }

  lemma {:induction false} PrunedChain(g: Groups, p: seq<string>, a: string, b: string)
    requires WellFormedFrom(g, a) && ChainTo(g, p, a, b)
    ensures Reaches(Pruned(g), a, b)
    decreases |p|
  {
    if |p| == 1 {
      ReachesSelf(Pruned(g), a);
    } else {
      assert Edge(g, a, p[1]);
      assert ChainTo(g, p[1..], p[1], b);
      WellFormedGroup(g, a);
      UpToBadOfWellFormed(g, g[a]);
      PrunedChain(g, p[1..], p[1], b);
      EdgeThenReaches(Pruned(g), a, p[1], b);
    }
  }

  lemma PrunedBelowWellFormed(g: Groups, a: string, b: string)
    requires WellFormedFrom(g, a)
    ensures Reaches(Pruned(g), a, b) <==> Reaches(g, a, b)
  {
    if Reaches(g, a, b) {
      var p :| ChainTo(g, p, a, b);
      PrunedChain(g, p, a, b);
    }
    if Reaches(Pruned(g), a, b) {
      PrunedIsSmaller(g, a, b);
    }
  }

  lemma VisitedIsReached(g: Groups, names: seq<string>, x: string)
    requires Visits(g, names, x)
    ensures ReachedFrom(g, names, x)
  {
    var n :| n in UpToBad(g, names) && Reaches(Pruned(g), n, x);
    UpToBadIsPart(g, names, n);
    PrunedIsSmaller(g, n, x);
  }

  /** In the absence of ill-formed groups, everything reachable is visited. */
  lemma WellFormedVisitAll(g: Groups, names: seq<string>, x: string)
    requires AllWellFormed(g, names)
    ensures Visits(g, names, x) <==> ReachedFrom(g, names, x)
  {
    UpToBadOfWellFormed(g, names);
    if ReachedFrom(g, names, x) {
      var n :| n in names && Reaches(g, n, x);
      PrunedBelowWellFormed(g, n, x);
    }
    if Visits(g, names, x) {
      VisitedIsReached(g, names, x);
    }
  }

  lemma VisitsConcat(g: Groups, a: seq<string>, b: seq<string>, x: string)
    ensures Visits(g, a + b, x) <==> Visits(g, a, x) || (AllWellFormed(g, a) && Visits(g, b, x))
  {
    UpToBadConcat(g, a, b);
    if AllWellFormed(g, a) {
      UpToBadOfWellFormed(g, a);
    }
  }

  lemma VisitsOne(g: Groups, name: string, x: string)
    ensures Visits(g, [name], x) <==> Reaches(Pruned(g), name, x)
  {
    assert UpToBad(g, [name]) == [name];
  }

  /** Visiting a group is visiting its members. */
  lemma VisitsGroup(g: Groups, h: string, x: string)
    requires IsGroup(h)
    ensures Visits(g, [h], x) <==> x == h || (h in g && Visits(g, g[h], x))
  {
    VisitsOne(g, h, x);
    ReachesUnfolds(Pruned(g), h, x);
    if h in g && Visits(g, g[h], x) {
      var n :| n in UpToBad(g, g[h]) && Reaches(Pruned(g), n, x);
      assert Edge(Pruned(g), h, n);
    }
    if Visits(g, [h], x) && x != h {
      var b := FirstStep(Pruned(g), h, x);
      assert b in UpToBad(g, g[h]);
    }
  }

  lemma VisitsIndividual(g: Groups, name: string, x: string)
    requires !IsGroup(name)
    ensures Visits(g, [name], x) <==> x == name
  {
    VisitsOne(g, name, x);
    ReachesUnfolds(Pruned(g), name, x);
  }

  // ----- Visits are the same after some groups were overwritten, except to groups that are flat anyway

  lemma {:induction false} MemoKeepsUpToBad(g: Groups, cur: Groups, names: seq<string>)
    requires Memo(g, cur)
    ensures UpToBad(cur, names) == UpToBad(g, names)
  {
    if names != [] {
      MemoKeepsWellFormedness(g, cur, names[0]);
      MemoKeepsUpToBad(g, cur, names[1..]);
    }
  }

  lemma PrunedOverwritten(g: Groups, cur: Groups, h: string)
    requires Memo(g, cur) && h in g && cur[h] != g[h]
    ensures WellFormedFrom(Pruned(g), h) && Pruned(cur)[h] == cur[h] && FlatGroup(Pruned(g), h, cur[h])
  {
    forall k | IsGroup(k) && Reaches(Pruned(g), h, k)
      ensures k in Pruned(g) && Pruned(g)[k] != []
    {
      PrunedIsSmaller(g, h, k);
    }
    OverwrittenExpandsToItself(g, cur, h);
    MemoKeepsUpToBad(g, cur, cur[h]);
    UpToBadOfWellFormed(g, cur[h]);
    forall u
      ensures UserOf(Pruned(g), h, u) <==> UserOf(g, h, u)
    {
      PrunedBelowWellFormed(g, h, u);
    }
  }

  lemma PrunedMemo(g: Groups, cur: Groups)
    requires Memo(g, cur)
    ensures Memo(Pruned(g), Pruned(cur))
  {
    forall h | h in g
      ensures Pruned(cur)[h] == Pruned(g)[h] ||
              (IsGroup(h) && WellFormedFrom(Pruned(g), h) && FlatGroup(Pruned(g), h, Pruned(cur)[h]))
    {
      if cur[h] == g[h] {
        MemoKeepsUpToBad(g, cur, g[h]);
      } else {
        PrunedOverwritten(g, cur, h);
      }
    }
  }

  lemma MemoKeepsNotes(g: Groups, cur: Groups, names: seq<string>, u: string)
    requires Memo(g, cur)
    ensures Notes(cur, names, u) <==> Notes(g, names, u)
  {
    MemoKeepsUpToBad(g, cur, names);
    PrunedMemo(g, cur);
    forall n
      ensures UserOf(Pruned(cur), n, u) <==> UserOf(Pruned(g), n, u)
    {
      MemoKeepsUsers(Pruned(g), Pruned(cur), n, u);
    }
    if Notes(cur, names, u) {
      var n :| n in UpToBad(cur, names) && Reaches(Pruned(cur), n, u);
      assert UserOf(Pruned(cur), n, u);
      assert UserOf(Pruned(g), n, u);
    }
    if Notes(g, names, u) {
      var n :| n in UpToBad(g, names) && Reaches(Pruned(g), n, u);
      assert UserOf(Pruned(g), n, u);
      assert UserOf(Pruned(cur), n, u);
    }
  }

  lemma {:induction false} ChainStaysOrIsFlat(g: Groups, cur: Groups, p: seq<string>, a: string, h: string)
    requires Memo(g, cur) && Settled(g, cur) && IsGroup(h) && ChainTo(Pruned(g), p, a, h)
    ensures Reaches(Pruned(cur), a, h) || (h in cur && FlatGroup(g, h, cur[h]))
    decreases |p|
  {
    if |p| == 1 {
      ReachesSelf(Pruned(cur), a);
    } else {
      assert Edge(Pruned(g), a, p[1]);
      assert ChainTo(Pruned(g), p[1..], p[1], h);
      ChainStaysOrIsFlat(g, cur, p[1..], p[1], h);
      if cur[a] == g[a] {
        MemoKeepsUpToBad(g, cur, g[a]);
        if Reaches(Pruned(cur), p[1], h) {
          EdgeThenReaches(Pruned(cur), a, p[1], h);
        }
      } else {
        assert Reaches(Pruned(g), a, h);
        PrunedIsSmaller(g, a, h);
      }
    }
  }

  lemma MemoKeepsCompletes(g: Groups, cur: Groups, names: seq<string>, h: string)
    requires Memo(g, cur) && Settled(g, cur)
    ensures Completes(cur, names, h) ==> Completes(g, names, h)
    ensures Completes(g, names, h) ==> Completes(cur, names, h) || (h in cur && FlatGroup(g, h, cur[h]))
  {
    MemoKeepsUpToBad(g, cur, names);
    MemoKeepsWellFormedness(g, cur, h);
    if Completes(cur, names, h) {
      var n :| n in UpToBad(cur, names) && Reaches(Pruned(cur), n, h);
      var p :| ChainTo(Pruned(cur), p, n, h);
      PrunedMemo(g, cur);
      GroupChainToOriginal(Pruned(g), Pruned(cur), p, n, h);
    }
    if Completes(g, names, h) {
      var n :| n in UpToBad(g, names) && Reaches(Pruned(g), n, h);
      var p :| ChainTo(Pruned(g), p, n, h);
      ChainStaysOrIsFlat(g, cur, p, n, h);
    }
  }
}

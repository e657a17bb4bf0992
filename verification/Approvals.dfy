/** What it means for owners to have approved, stated on the groups as a graph. */
module Approvals {
  import opened GroupGraph
  import opened GroupExpansion
  import opened Ordering

  const FALLBACK_OWNERS := "@FallbackOwners"

  ghost predicate AllDefined(g: Groups, names: seq<string>) {
    forall n :: n in names && IsGroup(n) ==> n in g
  }

  /** Every group at or below `name` is defined. (It may be empty.) */
  ghost predicate DefinedFrom(g: Groups, name: string) {
    forall h :: IsGroup(h) && Reaches(g, name, h) ==> h in g
  }

  /** The groups, with each member list that mentions an undefined group disqualified as a whole. */
  ghost function Clean(g: Groups): Groups {
    map h | h in g :: if AllDefined(g, g[h]) then g[h] else []
  }

  /** Some approver stands behind one of the names, and no member list on the way is disqualified. */
  ghost predicate NeedOne(g: Groups, approvers: seq<string>, names: seq<string>) {
    AllDefined(g, names) && exists u :: u in approvers && UserOfAny(Clean(g), names, u)
  }

  ghost predicate OwnerApproved(g: Groups, approvers: seq<string>, name: string) {
    if IsGroup(name) then name in g && NeedOne(g, approvers, g[name]) else name in approvers
  }

  ghost predicate FallbackApproved(g: Groups, approvers: seq<string>) {
    FALLBACK_OWNERS in g && NeedOne(g, approvers, g[FALLBACK_OWNERS])
  }

  ghost predicate NeedAll(g: Groups, approvers: seq<string>, names: seq<string>) {
    || FallbackApproved(g, approvers)
    || (AllDefined(g, names) && forall n :: n in names ==> OwnerApproved(g, approvers, n))
  }

  lemma NeedOneUnfolds(g: Groups, approvers: seq<string>, names: seq<string>)
    ensures NeedOne(g, approvers, names) <==>
            AllDefined(g, names) && exists n :: n in names && OwnerApproved(g, approvers, n)
  {
    forall n | n in names && AllDefined(g, names)
      ensures OwnerApproved(g, approvers, n) <==> exists u :: u in approvers && UserOf(Clean(g), n, u)
    {
      OwnerApprovedMeans(g, approvers, n);
    }
    if NeedOne(g, approvers, names) {
      var u :| u in approvers && UserOfAny(Clean(g), names, u);
      var n :| n in names && UserOf(Clean(g), n, u);
      assert OwnerApproved(g, approvers, n);
    }
    if AllDefined(g, names) {
      if n :| n in names && OwnerApproved(g, approvers, n) {
        var u :| u in approvers && UserOf(Clean(g), n, u);
        assert UserOfAny(Clean(g), names, u);
      }
    }
  }

  lemma OwnerApprovedMeans(g: Groups, approvers: seq<string>, n: string)
    requires IsGroup(n) ==> n in g
    ensures OwnerApproved(g, approvers, n) <==> exists u :: u in approvers && UserOf(Clean(g), n, u)
  {
    if !IsGroup(n) {
      forall u
        ensures UserOf(Clean(g), n, u) <==> n == u
      {
        UserOfIndividual(Clean(g), n, u);
      }
    } else {
      forall u
        ensures UserOf(Clean(g), n, u) <==> UserOfAny(Clean(g), Clean(g)[n], u)
      {
        UserOfGroup(Clean(g), n, u);
      }
    }
  }

  // ----- Where every group is defined, only reachability counts

  lemma {:induction false} CleanChain(g: Groups, p: seq<string>, a: string, b: string)
    requires DefinedFrom(g, a) && ChainTo(g, p, a, b)
    ensures Reaches(Clean(g), a, b)
    decreases |p|
  {
    if |p| == 1 {
      ReachesSelf(Clean(g), a);
    } else {
      assert Edge(g, a, p[1]);
      assert ChainTo(g, p[1..], p[1], b);
      forall h | Reaches(g, p[1], h)
        ensures Reaches(g, a, h)
      {
        EdgeThenReaches(g, a, p[1], h);
      }
      forall m | m in g[a] && IsGroup(m)
        ensures m in g
      {
        ReachesSelf(g, m);
        EdgeThenReaches(g, a, m, m);
      }
      CleanChain(g, p[1..], p[1], b);
      EdgeThenReaches(Clean(g), a, p[1], b);
    }
  }

  lemma CleanIsSmaller(g: Groups, a: string, b: string)
    requires Reaches(Clean(g), a, b)
    ensures Reaches(g, a, b)
  {
    var p :| ChainTo(Clean(g), p, a, b);
    assert forall i :: 0 <= i < |p| - 1 ==> Edge(Clean(g), p[i], p[i + 1]);
    assert ChainTo(g, p, a, b);
  }

  lemma CleanKeepsDefined(g: Groups, a: string, b: string)
    requires DefinedFrom(g, a)
    ensures Reaches(Clean(g), a, b) <==> Reaches(g, a, b)
  {
    if Reaches(g, a, b) {
      var p :| ChainTo(g, p, a, b);
      CleanChain(g, p, a, b);
    }
    if Reaches(Clean(g), a, b) {
      CleanIsSmaller(g, a, b);
    }
  }

  /** Need-one mode is true exactly when some user reachable from the owners approved. */
  lemma NeedOneIsReachability(g: Groups, approvers: seq<string>, names: seq<string>)
    requires forall n :: n in names ==> DefinedFrom(g, n)
    ensures NeedOne(g, approvers, names) <==> exists u :: u in approvers && UserOfAny(g, names, u)
  {
    forall n | n in names
      ensures IsGroup(n) ==> n in g
    {
      ReachesSelf(g, n);
    }
    forall n, u | n in names
      ensures UserOf(Clean(g), n, u) <==> UserOf(g, n, u)
    {
      CleanKeepsDefined(g, n, u);
    }
    forall u
      ensures UserOfAny(Clean(g), names, u) <==> UserOfAny(g, names, u)
    {
      if UserOfAny(g, names, u) {
        var n :| n in names && UserOf(g, n, u);
        assert UserOf(Clean(g), n, u);
      }
      if UserOfAny(Clean(g), names, u) {
        var n :| n in names && UserOf(Clean(g), n, u);
        assert UserOf(g, n, u);
      }
    }
  }

  /** An owner has approved exactly when some user it stands for has. */
  lemma OwnerApprovedIsReachability(g: Groups, approvers: seq<string>, n: string)
    requires DefinedFrom(g, n)
    ensures OwnerApproved(g, approvers, n) <==> exists u :: u in approvers && UserOf(g, n, u)
  {
    ReachesSelf(g, n);
    OwnerApprovedMeans(g, approvers, n);
    forall u
      ensures UserOf(Clean(g), n, u) <==> UserOf(g, n, u)
    {
      CleanKeepsDefined(g, n, u);
    }
  }

  // ----- More approvers never hurt

  lemma ApprovalIsMonotone(g: Groups, approvers: seq<string>, more: seq<string>, names: seq<string>)
    requires forall a :: a in approvers ==> a in more
    ensures NeedOne(g, approvers, names) ==> NeedOne(g, more, names)
    ensures NeedAll(g, approvers, names) ==> NeedAll(g, more, names)
  {
  }

  // ----- Memoised expansion never changes an answer

  lemma WellFormedIsClean(g: Groups, h: string)
    requires WellFormedFrom(g, h)
    ensures DefinedFrom(g, h) && WellFormedFrom(Clean(g), h)
  {
    forall k | IsGroup(k) && Reaches(Clean(g), h, k)
      ensures k in Clean(g) && Clean(g)[k] != []
    {
      CleanIsSmaller(g, h, k);
      forall m | m in g[k] && IsGroup(m)
        ensures m in g
      {
        ReachesSelf(g, m);
        EdgeThenReaches(g, k, m, m);
        ReachesTransitive(g, h, k, m);
      }
    }
  }

  lemma CleanMemo(g: Groups, cur: Groups)
    requires Memo(g, cur)
    ensures Memo(Clean(g), Clean(cur))
  {
    forall h | h in g && cur[h] != g[h]
      ensures WellFormedFrom(Clean(g), h) && FlatGroup(Clean(g), h, Clean(cur)[h])
    {
      WellFormedIsClean(g, h);
      forall u
        ensures UserOf(Clean(g), h, u) <==> UserOf(g, h, u)
      {
        CleanKeepsDefined(g, h, u);
      }
      assert AllDefined(cur, cur[h]);
    }
    forall h | h in g && cur[h] == g[h]
      ensures Clean(cur)[h] == Clean(g)[h]
    {
    }
  }

  /** Neither mode notices how far groups have been expanded, even in a malformed file. This is need-one mode. */
  lemma MemoKeepsNeedOne(g: Groups, cur: Groups, approvers: seq<string>, names: seq<string>)
    requires Memo(g, cur)
    ensures NeedOne(cur, approvers, names) <==> NeedOne(g, approvers, names)
  {
    CleanMemo(g, cur);
    forall n, u
      ensures UserOf(Clean(cur), n, u) <==> UserOf(Clean(g), n, u)
    {
      MemoKeepsUsers(Clean(g), Clean(cur), n, u);
    }
    if NeedOne(cur, approvers, names) {
      var u :| u in approvers && UserOfAny(Clean(cur), names, u);
      var n :| n in names && UserOf(Clean(cur), n, u);
      assert UserOf(Clean(g), n, u);
      assert UserOfAny(Clean(g), names, u);
    }
    if NeedOne(g, approvers, names) {
      var u :| u in approvers && UserOfAny(Clean(g), names, u);
      var n :| n in names && UserOf(Clean(g), n, u);
      assert UserOf(Clean(cur), n, u);
      assert UserOfAny(Clean(cur), names, u);
    }
  }

  lemma MemoKeepsOwnerApproved(g: Groups, cur: Groups, approvers: seq<string>, n: string)
    requires Memo(g, cur)
    ensures OwnerApproved(cur, approvers, n) <==> OwnerApproved(g, approvers, n)
  {
    if IsGroup(n) && n in g {
      CleanMemo(g, cur);
      OwnerApprovedMeans(g, approvers, n);
      OwnerApprovedMeans(cur, approvers, n);
      forall u
        ensures UserOf(Clean(cur), n, u) <==> UserOf(Clean(g), n, u)
      {
        MemoKeepsUsers(Clean(g), Clean(cur), n, u);
      }
    }
  }

  /** The answer for any owners is the same before, during and after expansion, even of a malformed file. */
  lemma MemoKeepsApproval(g: Groups, cur: Groups, approvers: seq<string>, names: seq<string>)
    requires Memo(g, cur)
    ensures FallbackApproved(cur, approvers) <==> FallbackApproved(g, approvers)
    ensures NeedAll(cur, approvers, names) <==> NeedAll(g, approvers, names)
  {
    assert IsGroup(FALLBACK_OWNERS);
    MemoKeepsOwnerApproved(g, cur, approvers, FALLBACK_OWNERS);
    assert OwnerApproved(cur, approvers, FALLBACK_OWNERS) <==> FallbackApproved(cur, approvers);
    assert OwnerApproved(g, approvers, FALLBACK_OWNERS) <==> FallbackApproved(g, approvers);
    forall n
      ensures OwnerApproved(cur, approvers, n) <==> OwnerApproved(g, approvers, n)
    {
      MemoKeepsOwnerApproved(g, cur, approvers, n);
    }
  }

  // ----- Flattened owner lists ask for more than grouped ones

  /** A flattened list needs every single user that the owners stand for, or a fallback owner. */
  lemma FlattenedNeedsEveryUser(g: Groups, approvers: seq<string>, names: seq<string>, flat: seq<string>)
    requires FlatOf(g, names, flat)
    ensures NeedAll(g, approvers, flat) <==>
            FallbackApproved(g, approvers) || forall u :: UserOfAny(g, names, u) ==> u in approvers
  {
  }

  /** A grouped list needs one user of each owner, or a fallback owner. */
  lemma GroupedNeedsOneEach(g: Groups, approvers: seq<string>, names: seq<string>)
    requires AllWellFormed(g, names)
    ensures NeedAll(g, approvers, names) <==>
            || FallbackApproved(g, approvers)
            || forall n :: n in names ==> exists u :: u in approvers && UserOf(g, n, u)
  {
    forall n | n in names
      ensures IsGroup(n) ==> n in g
      ensures OwnerApproved(g, approvers, n) <==> exists u :: u in approvers && UserOf(g, n, u)
    {
      ReachesSelf(g, n);
      OwnerApprovedIsReachability(g, approvers, n);
    }
  }

  /** Approval of the flattened list implies approval of the grouped one. */
  lemma FlattenedImpliesGrouped(g: Groups, approvers: seq<string>, names: seq<string>, flat: seq<string>)
    requires AllWellFormed(g, names) && AllAcyclic(g, names) && FlatOf(g, names, flat)
    requires NeedAll(g, approvers, flat)
    ensures NeedAll(g, approvers, names)
  {
    FlattenedNeedsEveryUser(g, approvers, names, flat);
    GroupedNeedsOneEach(g, approvers, names);
    if !FallbackApproved(g, approvers) {
      forall n | n in names
        ensures exists u :: u in approvers && UserOf(g, n, u)
      {
        var u := GroupHasUser(g, n);
        assert UserOfAny(g, names, u);
      }
    }
  }

  /** A user whose approval alone is a fallback owner's. */
  ghost predicate FallbackUser(g: Groups, u: string) {
    FALLBACK_OWNERS in g && AllDefined(g, g[FALLBACK_OWNERS]) && UserOfAny(Clean(g), g[FALLBACK_OWNERS], u)
  }

  /** The owner stands for nobody else who is not a fallback owner anyway. */
  ghost predicate DependsOn(g: Groups, n: string, u: string) {
    forall v :: UserOf(g, n, v) ==> v == u || FallbackUser(g, v)
  }

  /** All of `s` but `u` and fallback owners. */
  ghost function Others(g: Groups, s: seq<string>, u: string): (r: seq<string>)
    ensures forall x :: x in r <==> x in s && x != u && !FallbackUser(g, x)
  {
    if s == [] then []
    else
      assert s == [s[0]] + s[1..];
      if s[0] == u || FallbackUser(g, s[0]) then Others(g, s[1..], u) else [s[0]] + Others(g, s[1..], u)
  }

  /** If all but `u` and fallback owners approved, flattening makes a difference unless some owner depends on `u`. */
  lemma SomeOwnerDependsOn(g: Groups, names: seq<string>, flat: seq<string>, u: string) returns (n: string)
    requires AllWellFormed(g, names) && FlatOf(g, names, flat) && UserOfAny(g, names, u)
    requires var others := Others(g, flat, u); NeedAll(g, others, flat) <==> NeedAll(g, others, names)
    ensures n in names && DependsOn(g, n, u)
  {
    var others := Others(g, flat, u);
    FlattenedNeedsEveryUser(g, others, names, flat);
    GroupedNeedsOneEach(g, others, names);
    assert !FallbackApproved(g, others);
    n :| n in names && !exists v :: v in others && UserOf(g, n, v);
    forall v | UserOf(g, n, v)
      ensures v == u || FallbackUser(g, v)
    {
      assert UserOfAny(g, names, v) && v in flat;
      assert v !in others;
    }
  }

  /**
   * Flattening leaves every approval decision as it was exactly when for each user involved
   * there is an owner who stands for nobody else, fallback owners aside.
   */
  lemma FlatteningAgreesExactly(g: Groups, names: seq<string>, flat: seq<string>)
    requires AllWellFormed(g, names) && AllAcyclic(g, names) && FlatOf(g, names, flat)
    ensures (forall approvers :: NeedAll(g, approvers, flat) <==> NeedAll(g, approvers, names)) <==>
            (forall u :: UserOfAny(g, names, u) ==> exists n :: n in names && DependsOn(g, n, u))
  {
    if forall approvers :: NeedAll(g, approvers, flat) <==> NeedAll(g, approvers, names) {
      forall u | UserOfAny(g, names, u)
        ensures exists n :: n in names && DependsOn(g, n, u)
      {
        var n := SomeOwnerDependsOn(g, names, flat, u);
      }
    }
    if forall u :: UserOfAny(g, names, u) ==> exists n :: n in names && DependsOn(g, n, u) {
      forall approvers
        ensures NeedAll(g, approvers, flat) <==> NeedAll(g, approvers, names)
      {
        FlattenedNeedsEveryUser(g, approvers, names, flat);
        GroupedNeedsOneEach(g, approvers, names);
        if NeedAll(g, approvers, names) && !FallbackApproved(g, approvers) {
          forall u | UserOfAny(g, names, u)
            ensures u in approvers
          {
            var n :| n in names && DependsOn(g, n, u);
            var v :| v in approvers && UserOf(g, n, v);
            assert !FallbackUser(g, v);
          }
        }
        if NeedAll(g, approvers, flat) {
          FlattenedImpliesGrouped(g, approvers, names, flat);
        }
      }
    }
  }

  const PAIR: Groups := map["@A" := ["u", "v"]]

  lemma PairReaches(n: string, h: string)
    ensures Reaches(PAIR, "@A", h) <==> h == "@A" || h == "u" || h == "v"
    ensures !IsGroup(n) ==> (Reaches(PAIR, n, h) <==> h == n)
  {
    ReachesUnfolds(PAIR, n, h);
    ReachesUnfolds(PAIR, "@A", h);
    ReachesUnfolds(PAIR, "u", h);
    ReachesUnfolds(PAIR, "v", h);
    assert PAIR["@A"][0] == "u" && PAIR["@A"][1] == "v";
  }

  lemma PairIsWellMade()
    ensures AllWellFormed(PAIR, ["@A"]) && AllAcyclic(PAIR, ["@A"]) && FlatOf(PAIR, ["@A"], ["u", "v"])
  {
    forall h
      ensures Reaches(PAIR, "@A", h) <==> h == "@A" || h == "u" || h == "v"
    {
      PairReaches("@A", h);
    }
    assert !OnCycle(PAIR, "@A") by {
      PairReaches("u", "@A");
      PairReaches("v", "@A");
    }
    assert ["u", "v"][0] == "u" && ["u", "v"][1] == "v" && Less("u", "v");
    assert "@A" in ["@A"];
  }

  lemma PairHasNoFallback()
    ensures FALLBACK_OWNERS !in PAIR
  {
  }

  lemma OneIsEnoughForPair()
    ensures NeedAll(PAIR, ["u"], ["@A"])
  {
    PairIsWellMade();
    GroupedNeedsOneEach(PAIR, ["u"], ["@A"]);
    PairReaches("u", "u");
    assert UserOf(PAIR, "@A", "u") && "u" in ["u"];
  }

  /** A group of two, one of whom approved: enough as a group, not enough once flattened. */
  lemma OneOfTwoIsNotEnough()
    ensures AllWellFormed(PAIR, ["@A"]) && AllAcyclic(PAIR, ["@A"]) && FlatOf(PAIR, ["@A"], ["u", "v"])
    ensures NeedAll(PAIR, ["u"], ["@A"]) && !NeedAll(PAIR, ["u"], ["u", "v"])
  {
    PairIsWellMade();
    OneIsEnoughForPair();
    PairHasNoFallback();
    FlattenedNeedsEveryUser(PAIR, ["u"], ["@A"], ["u", "v"]);
    PairReaches("v", "v");
    assert "@A" in ["@A"] && UserOf(PAIR, "@A", "v") && "v" !in ["u"];
    assert UserOfAny(PAIR, ["@A"], "v");
  }
}

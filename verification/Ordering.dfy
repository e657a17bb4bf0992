/** The string order, sorting and de-duplication that the program takes from Go's standard library. */
module Ordering {

  /** Strict lexicographic order, as Go compares strings. (UTF-8 keeps the order of code points.) */
  predicate Less(a: string, b: string) {
    b != "" && (a == "" || a[0] < b[0] || (a[0] == b[0] && Less(a[1..], b[1..])))
  }

  lemma {:induction false} LessIrreflexive(a: string)
    ensures !Less(a, a)
  {
    if a != "" {
      LessIrreflexive(a[1..]);
    }
  }

  lemma {:induction false} LessTransitive(a: string, b: string, c: string)
    requires Less(a, b) && Less(b, c)
    ensures Less(a, c)
  {
    if a != "" && a[0] == b[0] == c[0] {
      LessTransitive(a[1..], b[1..], c[1..]);
    }
  }

  lemma {:induction false} LessTotal(a: string, b: string)
    ensures a == b || Less(a, b) || Less(b, a)
  {
    if a != "" && b != "" && a[0] == b[0] {
      LessTotal(a[1..], b[1..]);
      assert a == [a[0]] + a[1..] && b == [b[0]] + b[1..];
    }
  }

  ghost predicate Sorted(s: seq<string>) {
    forall i, j :: 0 <= i < j < |s| ==> s[i] == s[j] || Less(s[i], s[j])
  }

  ghost predicate StrictlySorted(s: seq<string>) {
    forall i, j :: 0 <= i < j < |s| ==> Less(s[i], s[j])
  }

  function Insert(x: string, s: seq<string>): (r: seq<string>) {
    if s == [] then [x]
    else if Less(s[0], x) then [s[0]] + Insert(x, s[1..])
    else [x] + s
  }

  lemma {:induction false} InsertContents(x: string, s: seq<string>)
    ensures multiset(Insert(x, s)) == multiset(s) + multiset{x}
    ensures forall y :: y in Insert(x, s) <==> y == x || y in s
  {
    if s != [] && Less(s[0], x) {
      InsertContents(x, s[1..]);
      assert s == [s[0]] + s[1..];
    }
  }

  lemma {:induction false} SortedCons(x: string, s: seq<string>)
    requires Sorted(s)
    requires forall y :: y in s ==> x == y || Less(x, y)
    ensures Sorted([x] + s)
  {
  }

  lemma {:induction false} InsertSorts(x: string, s: seq<string>)
    requires Sorted(s)
    ensures Sorted(Insert(x, s))
  {
    if s == [] {
    } else if Less(s[0], x) {
      InsertSorts(x, s[1..]);
      InsertContents(x, s[1..]);
      SortedCons(s[0], Insert(x, s[1..]));
    } else {
      LessTotal(s[0], x);
      forall y | y in s
        ensures x == y || Less(x, y)
      {
        if x != s[0] && s[0] != y {
          LessTransitive(x, s[0], y);
        }
      }
      SortedCons(x, s);
    }
  }

  /** `slices.Sort` */
  function Sort(s: seq<string>): (r: seq<string>) {
    if s == [] then [] else Insert(s[0], Sort(s[1..]))
  }

  lemma {:induction false} SortSorts(s: seq<string>)
    ensures Sorted(Sort(s)) && multiset(Sort(s)) == multiset(s)
  {
    if s != [] {
      SortSorts(s[1..]);
      InsertSorts(s[0], Sort(s[1..]));
      InsertContents(s[0], Sort(s[1..]));
      assert s == [s[0]] + s[1..];
    }
  }

  /** `slices.Compact`: drops every element equal to the one before it. */
  function Compact(s: seq<string>): (r: seq<string>) {
    if |s| <= 1 then s
    else if s[0] == s[1] then Compact(s[1..])
    else [s[0]] + Compact(s[1..])
  }

  lemma {:induction false} CompactSorted(s: seq<string>)
    requires Sorted(s)
    ensures StrictlySorted(Compact(s))
    ensures forall x :: x in Compact(s) <==> x in s
    ensures s != [] ==> Compact(s) != [] && Compact(s)[0] == s[0]
  {
    if |s| > 1 {
      CompactSorted(s[1..]);
      assert forall x :: x in s <==> x == s[0] || x in s[1..];
      if s[0] != s[1] {
        var t := Compact(s[1..]);
        forall j | 0 <= j < |t|
          ensures Less(s[0], t[j])
        {
          if j > 0 {
            LessTransitive(s[0], t[0], t[j]);
          }
        }
      }
    }
  }

  /** Sorting and then compacting, which the program always does together. */
  function SortCompact(s: seq<string>): (r: seq<string>)
    ensures StrictlySorted(r) && forall x :: x in r <==> x in s
  {
    SortSorts(s);
    CompactSorted(Sort(s));
    assert forall x :: x in s <==> x in multiset(s);
    assert forall x :: x in Sort(s) <==> x in multiset(Sort(s));
    Compact(Sort(s))
  }

  /** A set of strings has only one strictly sorted listing. */
  lemma {:induction false} SortedListingIsUnique(a: seq<string>, b: seq<string>)
    requires StrictlySorted(a) && StrictlySorted(b)
    requires forall x :: x in a <==> x in b
    ensures a == b
  {
    assert a != [] ==> a[0] in b;
    assert b != [] ==> b[0] in a;
    if a != [] {
      if a[0] != b[0] {
        var i :| 0 <= i < |b| && b[i] == a[0];
        var j :| 0 <= j < |a| && a[j] == b[0];
        LessTransitive(a[0], a[j], b[i]);
        LessIrreflexive(a[0]);
      }
      LessIrreflexive(a[0]);
      forall x
        ensures x in a[1..] <==> x in b[1..]
      {
        assert a == [a[0]] + a[1..] && b == [b[0]] + b[1..];
        assert x in a <==> x == a[0] || x in a[1..];
        assert x in b <==> x == b[0] || x in b[1..];
        if x == a[0] {
          assert forall k :: 1 <= k < |a| ==> Less(a[0], a[k]);
          assert forall k :: 1 <= k < |b| ==> Less(b[0], b[k]);
        }
      }
      SortedListingIsUnique(a[1..], b[1..]);
    }
  }
}

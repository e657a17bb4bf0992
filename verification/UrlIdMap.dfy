/** The two-way map between pull-request URLs and Slack IDs, with cascading delete. */
module UrlIdMap {

  type Mapping = map<string, string>

  /** Every key's value maps back to the key. */
  ghost predicate SelfInverse(m: Mapping) {
    forall k :: k in m ==> m[k] in m && m[m[k]] == k
  }

  /** `key` itself or a path below it, as for a pull request and its comments, or a channel and its messages. */
  predicate Under(k: string, key: string) {
    key + "/" <= k
  }

  function AfterSet(m: Mapping, url: string, ids: string): Mapping {
    m[url := ids][ids := url]
  }

  /** Neither side is paired with anything else yet. */
  ghost predicate CanPair(m: Mapping, url: string, ids: string) {
    (url in m ==> m[url] in {url, ids}) && (ids in m ==> m[ids] in {url, ids})
  }

  /** Setting a pair keeps the map its own inverse exactly if neither side is paired with anything else yet. */
  lemma SetKeepsInverseExactly(m: Mapping, url: string, ids: string)
    requires SelfInverse(m)
    ensures SelfInverse(AfterSet(m, url, ids)) <==> CanPair(m, url, ids)
  {
    var n := AfterSet(m, url, ids);
    if CanPair(m, url, ids) {
      forall k | k in n
        ensures n[k] in n && n[n[k]] == k
      {
        if k != url && k != ids {
          assert m[m[k]] == k;
        }
      }
    }
    if SelfInverse(n) && url in m {
      assert m[m[url]] == url && m[url] in n;
    }
    if SelfInverse(n) && ids in m {
      assert m[m[ids]] == ids && m[ids] in n;
    }
  }

  /** A fresh pair over an existing one leaves the old partner behind, pointing to a URL that no longer points back. */
  lemma RepairingBreaksInverse()
    ensures var m := AfterSet(map[], "url", "C1");
            SelfInverse(m) && !SelfInverse(AfterSet(m, "url", "C2"))
  {
    SetKeepsInverseExactly(map[], "url", "C1");
    var m := AfterSet(map[], "url", "C1");
    assert "url"[0] != "C1"[0] && "C1"[1] != "C2"[1];
    SetKeepsInverseExactly(m, "url", "C2");
  }

  /** What a key is paired with; nothing is the empty string. */
  function Partner(m: Mapping, key: string): string {
    if key in m then m[key] else ""
  }

  /** Setting a pair that may be set makes each side the other's partner, and leaves all other look-ups alone. */
  lemma GetAfterSet(m: Mapping, url: string, ids: string, key: string)
    requires SelfInverse(m) && CanPair(m, url, ids) && url != ids
    ensures var n := AfterSet(m, url, ids);
            && Partner(n, key) == (if key == url then ids else if key == ids then url else Partner(m, key))
            && (key in n ==> Partner(n, Partner(n, key)) == key)
  {
    SetKeepsInverseExactly(m, url, ids);
  }

  /** What a delete removes by way of the key itself. */
  ghost function Direct(m: Mapping, key: string): set<string> {
    set k | k in m && (k == key || (key in m && k == m[key]) || m[k] == key)
  }

  /** What it then removes by way of paths below the key. */
  ghost function Cascade(m: Mapping, key: string): set<string> {
    (set k | k in m && (Under(k, key) || Under(m[k], key))) +
    (set k | k in m && (Under(k, key) || Under(m[k], key)) :: m[k])
  }

  ghost function AfterDel(m: Mapping, key: string): Mapping {
    var rest := m - Direct(m, key);
    rest - Cascade(rest, key)
  }

  /** The keys that a delete is meant to remove: the key, its partner, all paths below the key, and their partners. */
  ghost predicate Doomed(m: Mapping, key: string, k: string)
    requires k in m
  {
    k == key || m[k] == key || Under(k, key) || Under(m[k], key)
  }

  /** In a map that is its own inverse, a delete removes exactly these, and the rest is still its own inverse. */
  lemma DelRemovesExactly(m: Mapping, key: string)
    requires SelfInverse(m)
    ensures SelfInverse(AfterDel(m, key))
    ensures forall k :: k in AfterDel(m, key) <==> k in m && !Doomed(m, key, k)
    ensures forall k :: k in AfterDel(m, key) ==> AfterDel(m, key)[k] == m[k]
  {
  }

  /** After a delete, look-ups of what was to go yield nothing, and all others what they did before. */
  lemma GetAfterDel(m: Mapping, key: string, k: string)
    requires SelfInverse(m)
    ensures Partner(AfterDel(m, key), k) == if k in m && !Doomed(m, key, k) then Partner(m, k) else ""
  {
    DelRemovesExactly(m, key);
  }

  /** The tree of URLs below `url` mirrors the tree of IDs below `ids`. */
  ghost predicate Mirrored(m: Mapping, url: string, ids: string) {
    && url in m && m[url] == ids
    && (forall k :: k in m && Under(k, url) ==> Under(m[k], ids))
    && (forall k :: k in m && Under(k, ids) ==> Under(m[k], url))
  }

  /** The key, or its partner, is below `top`. */
  predicate Below(m: Mapping, k: string, top: string)
    requires k in m
  {
    Under(k, top) || Under(m[k], top)
  }

  /** Deleting by URL or by ID does the same exactly if the same pairs are below both; then both trees are gone. */
  lemma DelFromEitherSideExactly(m: Mapping, url: string, ids: string)
    requires SelfInverse(m) && url in m && m[url] == ids
    ensures AfterDel(m, url) == AfterDel(m, ids) <==>
            forall k :: k in m && k != url && k != ids ==> (Below(m, k, url) <==> Below(m, k, ids))
    ensures AfterDel(m, url) == AfterDel(m, ids) ==>
              forall k :: k in AfterDel(m, url) ==> k != url && k != ids && !Under(k, url) && !Under(k, ids)
  {
    var a, b := AfterDel(m, url), AfterDel(m, ids);
    DelRemovesExactly(m, url);
    DelRemovesExactly(m, ids);
    forall k | k in m && k != url && k != ids
      ensures k in a <==> !Below(m, k, url)
      ensures k in b <==> !Below(m, k, ids)
    {
      assert m[m[k]] == k;
    }
    if forall k :: k in m && k != url && k != ids ==> (Below(m, k, url) <==> Below(m, k, ids)) {
      forall k
        ensures k in a <==> k in b
      {
      }
      assert a == b;
    }
  }

  /** In particular where the two trees mirror each other. */
  lemma DelFromEitherSide(m: Mapping, url: string, ids: string)
    requires SelfInverse(m) && Mirrored(m, url, ids)
    ensures AfterDel(m, url) == AfterDel(m, ids)
    ensures forall k :: k in AfterDel(m, url) ==> k != url && k != ids && !Under(k, url) && !Under(k, ids)
  {
    DelFromEitherSideExactly(m, url, ids);
  }

  /** A pull request, and a comment whose URL only adds a fragment. */
  function WithFragment(url: string, fragment: string, ids: string, ts: string): Mapping {
    AfterSet(AfterSet(map[], url, ids), url + "#" + fragment, ids + "/" + ts)
  }

  lemma FragmentIsNotBelow(url: string, fragment: string)
    ensures !Under(url + "#" + fragment, url)
  {
    assert (url + "/")[|url|] == '/' && (url + "#" + fragment)[|url|] == '#';
  }

  /** Such a comment outlives a delete by URL, but not one by channel. */
  lemma FragmentsOutliveURL(url: string, fragment: string, ids: string, ts: string)
    requires url != "" && ids != "" && url[0] != ids[0]
    ensures var m := WithFragment(url, fragment, ids, ts);
            && SelfInverse(m) && url in m && m[url] == ids
            && url + "#" + fragment in AfterDel(m, url) && url + "#" + fragment !in AfterDel(m, ids)
  {
    var comment, message := url + "#" + fragment, ids + "/" + ts;
    FragmentIsNotBelow(url, fragment);
    assert comment[0] == url[0] && message[0] == ids[0] && |comment| > |url| && |message| > |ids|;
    assert (url + "/")[0] == url[0];
    assert !Under(message, url) && Under(message, ids);
    PairAndPair(url, ids, comment, message);
    var m := WithFragment(url, fragment, ids, ts);
    DelRemovesExactly(m, url);
    DelRemovesExactly(m, ids);
    assert !Doomed(m, url, comment) && Doomed(m, ids, comment);
  }

  lemma PairAndPair(a: string, b: string, c: string, d: string)
    requires a != b && a != c && a != d && b != c && b != d && c != d
    ensures SelfInverse(AfterSet(AfterSet(map[], a, b), c, d))
  {
    SetKeepsInverseExactly(map[], a, b);
    SetKeepsInverseExactly(AfterSet(map[], a, b), c, d);
  }

  // ----- The map, updated in place

  class URLsAndIDs {
    var m: Mapping

    constructor ()
      ensures m == map[]
    {
      m := map[];
    }

    method Get(key: string) returns (value: string)
      ensures value == Partner(m, key)
      ensures SelfInverse(m) && key in m ==> value in m && Partner(m, value) == key
    {
      return if key in m then m[key] else "";
    }

    method SetMapping(url: string, ids: string)
      modifies this
      ensures m == AfterSet(old(m), url, ids)
    {
      m := m[url := ids];
      m := m[ids := url];
    }

    method DelMapping(key: string)
      modifies this
      ensures m == AfterDel(old(m), key)
    {
      DelDirect(key);
      var more := CollectBelow(key);
      ghost var rest := m;
      for i := 0 to |more|
        invariant m == rest - (set x | x in more[..i])
      {
        assert more[..i + 1] == more[..i] + [more[i]];
        m := m - {more[i]};
      }
      assert more[..|more|] == more;
    }

    /** Deletes the key, its partner, and all that map to the key. */
    method DelDirect(key: string)
      modifies this
      ensures m == old(m) - Direct(old(m), key)
    {
      ghost var m0 := m;
      if key in m {
        m := m - {m[key]};
      }
      m := m - {key};
      // The map loses entries while it is iterated over.
      ghost var m1 := m;
      var todo := m.Keys;
      while todo != {}
        invariant todo <= m1.Keys
        invariant m == m1 - (set k | k in m1 && m1[k] == key && k !in todo)
      {
        var k :| k in todo;
        if k in m && m[k] == key {
          m := m - {k};
        }
        todo := todo - {k};
      }
      assert m == m0 - Direct(m0, key);
    }

    /** Lists the keys on, or paired with, paths below the key. */
    method CollectBelow(key: string) returns (more: seq<string>)
      ensures forall x :: x in more <==> x in Cascade(m, key)
    {
      var prefix := key + "/";
      more := [];
      var todo := m.Keys;
      while todo != {}
        invariant todo <= m.Keys
        invariant forall x :: x in more <==>
                                exists k :: && k in m && k !in todo && (Under(k, key) || Under(m[k], key))
                                            && (x == k || x == m[k])
      {
        var k :| k in todo;
        if prefix <= k {
          more := more + [k, m[k]];
        }
        if prefix <= m[k] {
          more := more + [k, m[k]];
        }
        todo := todo - {k};
      }
    }
  }

  // ----- Runs

  datatype Change = Set(url: string, ids: string) | Del(key: string)

  ghost function After(m: Mapping, c: Change): Mapping {
    match c
    case Set(url, ids) => AfterSet(m, url, ids)
    case Del(key) => AfterDel(m, key)
  }

  /** Over any run whose sets pair only what is unpaired or paired with each other, the map is its own inverse. */
  lemma {:induction false} RunsStaySelfInverse(maps: seq<Mapping>, changes: seq<Change>, n: nat)
    requires |maps| == |changes| + 1 && n < |maps| && SelfInverse(maps[0])
    requires forall i :: 0 <= i < |changes| ==> maps[i + 1] == After(maps[i], changes[i])
    requires forall i :: 0 <= i < |changes| && changes[i].Set? ==> CanPair(maps[i], changes[i].url, changes[i].ids)
    ensures SelfInverse(maps[n])
  {
    if n > 0 {
      RunsStaySelfInverse(maps, changes, n - 1);
      assert maps[n - 1 + 1] == After(maps[n - 1], changes[n - 1]);
      match changes[n - 1]
      case Set(url, ids) => SetKeepsInverseExactly(maps[n - 1], url, ids);
      case Del(key) => DelRemovesExactly(maps[n - 1], key);
    }
  }
}

/** The user database: entries, the five indexes over them, and what every sequence of changes keeps. */
module Users {
  import opened Ordering

  // ----- Entries and indexes, as values

  datatype User = User(
    email: string,
    bitbucketID: string,
    githubID: string,
    slackID: string,
    thrippyLink: string,
    realName: string,
    followers: seq<string>,
    created: int,
    updated: int)

  const NO_USER := User("", "", "", "", "", "", [], 0, 0)

  /** The four kinds of ID that are unique, unlike real names. */
  datatype Kind = Email | Bitbucket | GitHub | Slack

  function Id(u: User, k: Kind): string {
    match k
    case Email => u.email
    case Bitbucket => u.bitbucketID
    case GitHub => u.githubID
    case Slack => u.slackID
  }

  /** An ID that gets indexed. All bots share one pseudo email address, which doesn't. */
  predicate Indexable(k: Kind, id: string) {
    id != "" && !(k == Email && id == "bot")
  }

  type Index = map<string, int>

  const NON_UNIQUE := -1

  datatype DB = DB(entries: seq<User>, email: Index, bitbucket: Index, github: Index, slack: Index, name: Index)

  function IndexOf(db: DB, k: Kind): Index {
    match k
    case Email => db.email
    case Bitbucket => db.bitbucket
    case GitHub => db.github
    case Slack => db.slack
  }

  /** Entry `i` holds this ID. */
  predicate Holds(entries: seq<User>, i: int, k: Kind, id: string) {
    0 <= i < |entries| && Indexable(k, id) && Id(entries[i], k) == id
  }

  /** IDs are held in the fields named after them. */
  lemma HoldsMeans(entries: seq<User>, i: int, id: string)
    requires 0 <= i < |entries|
    ensures Holds(entries, i, Email, id) <==> entries[i].email == id && id != "" && id != "bot"
    ensures Holds(entries, i, Bitbucket, id) <==> entries[i].bitbucketID == id && id != ""
    ensures Holds(entries, i, GitHub, id) <==> entries[i].githubID == id && id != ""
    ensures Holds(entries, i, Slack, id) <==> entries[i].slackID == id && id != ""
  {
  }

  /** The arguments of an upsert; empty means "leave as it is". */
  datatype Details = Details(email: string, realName: string, bitbucketID: string, githubID: string, slackID: string,
                             thrippyLink: string)

  function Given(d: Details, k: Kind): string {
    match k
    case Email => d.email
    case Bitbucket => d.bitbucketID
    case GitHub => d.githubID
    case Slack => d.slackID
  }

  datatype Result = Found(index: int) | Conflict

  /** One more index has its say: it may bring up an entry, agree with the one found so far, or conflict with it. */
  function Narrow(r: Result, index: Index, id: string): Result {
    if r.Conflict? || id !in index then r
    else if r.index >= 0 && r.index != index[id] then Conflict
    else Found(index[id])
  }

  /** The entry that all known IDs and names agree on, or -1. */
  function Find(db: DB, d: Details): Result {
    var e := if d.email in db.email then Found(db.email[d.email]) else Found(-1);
    var n := Narrow(e, db.name, d.realName);
    var b := Narrow(n, db.bitbucket, d.bitbucketID);
    var g := Narrow(b, db.github, d.githubID);
    Narrow(g, db.slack, d.slackID)
  }

  function Updated(u: User, d: Details, now: int): User {
    u.(email := if d.email != "" then d.email else u.email,
       realName := if d.realName != "" then d.realName else u.realName,
       bitbucketID := if d.bitbucketID != "" then d.bitbucketID else u.bitbucketID,
       githubID := if d.githubID != "" then d.githubID else u.githubID,
       slackID := if d.slackID != "" then d.slackID else u.slackID,
       thrippyLink := if d.thrippyLink == "" then u.thrippyLink else if d.thrippyLink == "X" then "" else d.thrippyLink,
       updated := now)
  }

  function Indexed(index: Index, k: Kind, id: string, i: int): Index {
    if Indexable(k, id) then index[id := i] else index
  }

  ghost predicate IndexInRange(index: Index, k: Kind, n: nat) {
    forall id :: id in index ==> 0 <= index[id] < n && Indexable(k, id)
  }

  /** Indexes point to entries; only a name may be marked as non-unique instead. */
  ghost predicate InRange(db: DB) {
    && IndexInRange(db.email, Email, |db.entries|) && IndexInRange(db.bitbucket, Bitbucket, |db.entries|)
    && IndexInRange(db.github, GitHub, |db.entries|) && IndexInRange(db.slack, Slack, |db.entries|)
    && (forall n :: n in db.name ==> NON_UNIQUE <= db.name[n] < |db.entries|)
    && "" !in db.name
  }

  function AfterUpsert(db: DB, d: Details, now: int): DB
    requires InRange(db)
  {
    var r := Find(db, d);
    if r.Conflict? then db
    else
      var blank := NO_USER.(created := now);
      var i := if r.index < 0 then |db.entries| else r.index;
      var entries := if r.index < 0 then db.entries + [blank] else db.entries;
      DB(entries[i := Updated(entries[i], d, now)],
         Indexed(db.email, Email, d.email, i),
         Indexed(db.bitbucket, Bitbucket, d.bitbucketID, i),
         Indexed(db.github, GitHub, d.githubID, i),
         Indexed(db.slack, Slack, d.slackID, i),
         if d.realName != "" then db.name[d.realName := i] else db.name)
  }

  // ----- What every reachable database keeps

  /** Every unique ID that an entry holds is indexed to that entry. */
  ghost predicate HeldAreIndexed(db: DB) {
    forall i, k, id :: Holds(db.entries, i, k, id) ==> id in IndexOf(db, k) && IndexOf(db, k)[id] == i
  }

  ghost predicate FollowableEntries(entries: seq<User>) {
    && (forall i :: 0 <= i < |entries| ==> StrictlySorted(entries[i].followers))
    && (forall i :: 0 <= i < |entries| && entries[i].followers != [] ==> entries[i].slackID != "")
  }

  /** Follower lists are sorted without duplicates, and whoever is followed or indexed by Slack ID has a Slack ID. */
  ghost predicate Followable(db: DB) {
    && FollowableEntries(db.entries)
    && (forall id :: id in db.slack && 0 <= db.slack[id] < |db.entries| ==> db.entries[db.slack[id]].slackID != "")
  }

  ghost predicate Valid(db: DB) {
    InRange(db) && HeldAreIndexed(db) && Followable(db)
  }

  /** No two entries share an ID. */
  lemma HeldIdsAreUnique(db: DB, i: int, j: int, k: Kind, id: string)
    requires Valid(db) && Holds(db.entries, i, k, id) && Holds(db.entries, j, k, id)
    ensures i == j
  {
  }

  /** Whatever unique IDs are known among the details, the entry found is the one they are all indexed to. */
  lemma FoundAgreesWithIndexes(db: DB, d: Details, k: Kind)
    requires Valid(db) && Find(db, d).Found? && Given(d, k) in IndexOf(db, k)
    ensures Find(db, d).index == IndexOf(db, k)[Given(d, k)]
  {
  }

  /** The entry found is that of a known unique ID, or else of the name if that is indexed, or else there is none. */
  lemma FoundMeans(db: DB, d: Details)
    requires Valid(db) && Find(db, d).Found?
    ensures forall k, i :: Known(db, d, k, i) ==> Find(db, d).index == i
    ensures (forall k, i :: !Known(db, d, k, i)) ==>
              Find(db, d).index == if d.realName in db.name then db.name[d.realName] else -1
  {
    forall k, i | Known(db, d, k, i)
      ensures Find(db, d).index == i
    {
      FoundAgreesWithIndexes(db, d, k);
    }
    if forall k, i :: !Known(db, d, k, i) {
      forall k
        ensures Given(d, k) !in IndexOf(db, k)
      {
        var i := if Given(d, k) in IndexOf(db, k) then IndexOf(db, k)[Given(d, k)] else 0;
        assert !Known(db, d, k, i);
      }
      assert Given(d, Email) !in IndexOf(db, Email) && Given(d, Bitbucket) !in IndexOf(db, Bitbucket);
      assert Given(d, GitHub) !in IndexOf(db, GitHub) && Given(d, Slack) !in IndexOf(db, Slack);
    }
  }

  /** What the unique ID of one kind is indexed to, if it is known. */
  ghost predicate Known(db: DB, d: Details, k: Kind, i: int) {
    Given(d, k) in IndexOf(db, k) && IndexOf(db, k)[Given(d, k)] == i
  }

  /** Two unique IDs among the details belong to different entries. */
  ghost predicate IdsDisagree(db: DB, d: Details) {
    exists k, l, i, j :: Known(db, d, k, i) && Known(db, d, l, j) && i != j
  }

  /** A unique ID among the details and their name, which is unique, belong to different entries. */
  ghost predicate NameDisagrees(db: DB, d: Details) {
    && d.realName in db.name && db.name[d.realName] != NON_UNIQUE
    && exists k, i :: Known(db, d, k, i) && i != db.name[d.realName]
  }

  /** The email address is known, but the name is marked as non-unique. */
  predicate NameIsAmbiguous(db: DB, d: Details) {
    d.realName in db.name && db.name[d.realName] == NON_UNIQUE && d.email in db.email
  }

  /** The result so far, unless there is a conflict, is what some unique ID or the name points to. */
  ghost predicate Explained(db: DB, d: Details, r: Result) {
    && (r.Conflict? ==> IdsDisagree(db, d) || NameDisagrees(db, d) || NameIsAmbiguous(db, d))
    && (r.Found? && r.index >= 0 ==>
          || (exists k :: Known(db, d, k, r.index))
          || (d.realName in db.name && db.name[d.realName] == r.index))
  }

  lemma NarrowingIsExplained(db: DB, d: Details, r: Result, k: Kind)
    requires Explained(db, d, r)
    ensures Explained(db, d, Narrow(r, IndexOf(db, k), Given(d, k)))
  {
    var next := Narrow(r, IndexOf(db, k), Given(d, k));
    if r.Found? && Given(d, k) in IndexOf(db, k) {
      assert Known(db, d, k, IndexOf(db, k)[Given(d, k)]);
    }
  }

  /**
   * Details are in conflict exactly if two of their unique IDs, or one of them and a unique name, belong to
   * different entries; or if the email address is known but the name is marked as non-unique.
   */
  lemma ConflictExactly(db: DB, d: Details)
    requires Valid(db)
    ensures Find(db, d).Conflict? <==> IdsDisagree(db, d) || NameDisagrees(db, d) || NameIsAmbiguous(db, d)
  {
    var e := if d.email in db.email then Found(db.email[d.email]) else Found(-1);
    assert d.email in db.email ==> Known(db, d, Email, e.index);
    var n := Narrow(e, db.name, d.realName);
    assert Explained(db, d, n);
    var b := Narrow(n, IndexOf(db, Bitbucket), Given(d, Bitbucket));
    NarrowingIsExplained(db, d, n, Bitbucket);
    var g := Narrow(b, IndexOf(db, GitHub), Given(d, GitHub));
    NarrowingIsExplained(db, d, b, GitHub);
    NarrowingIsExplained(db, d, g, Slack);
    if Find(db, d).Found? {
      forall k, i | Known(db, d, k, i)
        ensures i == Find(db, d).index
      {
        FoundAgreesWithIndexes(db, d, k);
      }
      assert d.realName in db.name && db.name[d.realName] != NON_UNIQUE ==> db.name[d.realName] == Find(db, d).index;
    }
  }

  /** For example, details with the email address "a" of one of two users who are both named "Jo". */
  lemma AmbiguousNameAlone() returns (db: DB, d: Details)
    ensures Valid(db) && |db.entries| == 2 && db.entries[0].realName == db.entries[1].realName == d.realName
    ensures d.email == db.entries[0].email && Find(db, d).Conflict?
    ensures NameIsAmbiguous(db, d) && !IdsDisagree(db, d) && !NameDisagrees(db, d)
  {
    var a, b := NO_USER.(email := "a", realName := "Jo"), NO_USER.(email := "b", realName := "Jo");
    db := DB([a, b], map["a" := 0, "b" := 1], map[], map[], map[], map["Jo" := NON_UNIQUE]);
    d := Details("a", "Jo", "", "", "", "");
    forall i, k, id | Holds(db.entries, i, k, id)
      ensures id in IndexOf(db, k) && IndexOf(db, k)[id] == i
    {
      assert k == Email;
    }
    assert forall k, i :: Known(db, d, k, i) ==> k == Email;
  }

  lemma FoundInRange(db: DB, d: Details)
    requires Valid(db) && Find(db, d).Found?
    ensures -1 <= Find(db, d).index < |db.entries|
  {
  }

  // ----- Followers

  /** A look-up by Slack ID alone. */
  function BySlackID(db: DB, id: string): int {
    if id in db.slack then db.slack[id] else -1
  }

  function OnlySlackID(id: string): Details {
    Details("", "", "", "", id, "")
  }

  lemma FindBySlackID(db: DB, id: string)
    requires InRange(db)
    ensures Find(db, OnlySlackID(id)) == Found(BySlackID(db, id))
  {
  }

  /** Drops the first occurrence, as `slices.Index` and `slices.Delete` do. */
  function Without(s: seq<string>, x: string): seq<string> {
    if s == [] then [] else if s[0] == x then s[1..] else [s[0]] + Without(s[1..], x)
  }

  function WithFollowers(db: DB, i: int, followers: seq<string>, now: int): DB
    requires 0 <= i < |db.entries|
  {
    db.(entries := db.entries[i := db.entries[i].(followers := followers, updated := now)])
  }

  function AfterFollow(db: DB, follower: string, followed: string, now: int): DB
    requires InRange(db)
  {
    var i := BySlackID(db, followed);
    if i < 0 || follower in db.entries[i].followers then db
    else WithFollowers(db, i, Sort(db.entries[i].followers + [follower]), now)
  }

  function AfterUnfollow(db: DB, follower: string, followed: string, now: int): DB
    requires InRange(db)
  {
    var i := BySlackID(db, followed);
    if i < 0 || follower !in db.entries[i].followers then db
    else WithFollowers(db, i, Without(db.entries[i].followers, follower), now)
  }

  /** Every list without the follower; entries that had it are marked as updated, all else stays. */
  function Unfollowed(u: User, follower: string, now: int): User {
    if follower in u.followers then u.(followers := Without(u.followers, follower), updated := now) else u
  }

  function AfterRemoveFollower(db: DB, follower: string, now: int): DB {
    db.(entries := seq(|db.entries|, i requires 0 <= i < |db.entries| => Unfollowed(db.entries[i], follower, now)))
  }

  lemma {:induction false} WithoutSorted(s: seq<string>, x: string)
    requires StrictlySorted(s)
    ensures StrictlySorted(Without(s, x))
    ensures forall y :: y in Without(s, x) <==> y in s && y != x
  {
    if s != [] {
      WithoutSorted(s[1..], x);
      assert s == [s[0]] + s[1..];
      LessIrreflexive(s[0]);
      assert forall y :: y in s[1..] ==> Less(s[0], y);
    }
  }

  lemma SortedWithNewcomer(s: seq<string>, x: string)
    requires StrictlySorted(s) && x !in s
    ensures StrictlySorted(Sort(s + [x])) && forall y :: y in Sort(s + [x]) <==> y in s || y == x
  {
    var t := Sort(s + [x]);
    SortSorts(s + [x]);
    assert forall y :: y in t <==> y in multiset(t);
    assert forall y :: y in s + [x] <==> y in multiset(s + [x]);
    NoTwice(s, x);
    forall i, j | 0 <= i < j < |t|
      ensures Less(t[i], t[j])
    {
      if t[i] == t[j] {
        TwiceInMultiset(t, i, j);
      }
    }
  }

  lemma TwiceInMultiset(t: seq<string>, i: int, j: int)
    requires 0 <= i < j < |t| && t[i] == t[j]
    ensures multiset(t)[t[i]] >= 2
  {
    assert t == t[..i] + [t[i]] + t[i + 1..j] + [t[j]] + t[j + 1..];
  }

  lemma {:induction false} NoTwice(s: seq<string>, x: string)
    requires StrictlySorted(s) && x !in s
    ensures forall y :: multiset(s + [x])[y] <= 1
  {
    if s == [] {
    } else {
      NoTwice(s[1..], x);
      assert s + [x] == [s[0]] + (s[1..] + [x]);
      LessIrreflexive(s[0]);
      assert s[0] !in s[1..] + [x];
    }
  }

  /** Removing a follower leaves them in nobody's list, and nobody else out of any; only touched entries are updated. */
  lemma RemovedFromEveryList(db: DB, follower: string, now: int)
    requires Valid(db)
    ensures var after := AfterRemoveFollower(db, follower, now).entries;
            && |after| == |db.entries|
            && (forall i, f :: 0 <= i < |after| ==>
                                 (f in after[i].followers <==> f in db.entries[i].followers && f != follower))
            && (forall i :: 0 <= i < |after| ==>
                              && SameButFollowers(db.entries[i], after[i])
                              && after[i].updated ==
                                 if follower in db.entries[i].followers then now else db.entries[i].updated)
  {
    forall i | 0 <= i < |db.entries|
      ensures forall f :: f in Without(db.entries[i].followers, follower) <==>
                          f in db.entries[i].followers && f != follower
    {
      WithoutSorted(db.entries[i].followers, follower);
    }
  }

  /** Two entries differ in followers and update times at most. */
  predicate SameButFollowers(u: User, v: User) {
    && u.email == v.email && u.bitbucketID == v.bitbucketID && u.githubID == v.githubID && u.slackID == v.slackID
    && u.thrippyLink == v.thrippyLink && u.realName == v.realName && u.created == v.created
  }

  /** Following adds the follower to the list of the entry with that Slack ID, and changes nothing else. */
  lemma FollowMeans(db: DB, follower: string, followed: string, now: int)
    requires Valid(db)
    ensures var after := AfterFollow(db, follower, followed, now);
            && after == db.(entries := after.entries) && |after.entries| == |db.entries|
            && (forall i, f :: 0 <= i < |db.entries| ==>
                  (f in after.entries[i].followers <==>
                   f in db.entries[i].followers || (f == follower && followed in db.slack && i == db.slack[followed])))
            && (forall i :: 0 <= i < |db.entries| ==> SameButFollowers(db.entries[i], after.entries[i]))
            && (forall i :: 0 <= i < |db.entries| ==>
                  after.entries[i].updated ==
                  if followed in db.slack && i == db.slack[followed] && follower !in db.entries[i].followers
                  then now else db.entries[i].updated)
  {
    var i := BySlackID(db, followed);
    if i >= 0 && follower !in db.entries[i].followers {
      SortedWithNewcomer(db.entries[i].followers, follower);
    }
  }

  /** Unfollowing takes the follower off that list, and changes nothing else. */
  lemma UnfollowMeans(db: DB, follower: string, followed: string, now: int)
    requires Valid(db)
    ensures var after := AfterUnfollow(db, follower, followed, now);
            && after == db.(entries := after.entries) && |after.entries| == |db.entries|
            && (forall i, f :: 0 <= i < |db.entries| ==>
                  (f in after.entries[i].followers <==>
                   f in db.entries[i].followers && !(f == follower && followed in db.slack && i == db.slack[followed])))
            && (forall i :: 0 <= i < |db.entries| ==> SameButFollowers(db.entries[i], after.entries[i]))
            && (forall i :: 0 <= i < |db.entries| ==>
                  after.entries[i].updated ==
                  if followed in db.slack && i == db.slack[followed] && follower in db.entries[i].followers
                  then now else db.entries[i].updated)
  {
    var i := BySlackID(db, followed);
    if i >= 0 && follower in db.entries[i].followers {
      WithoutSorted(db.entries[i].followers, follower);
    }
  }

  // ----- Runs

  datatype Change =
    | Upsert(details: Details)
    | Follow(follower: string, followed: string)
    | Unfollow(follower: string, followed: string)
    | RemoveFollower(follower: string)

  function Step(db: DB, c: Change, now: int): DB
    requires InRange(db)
  {
    match c
    case Upsert(d) => AfterUpsert(db, d, now)
    case Follow(a, b) => AfterFollow(db, a, b, now)
    case Unfollow(a, b) => AfterUnfollow(db, a, b, now)
    case RemoveFollower(a) => AfterRemoveFollower(db, a, now)
  }

  /** What was resolved stays resolved to the same entry. */
  ghost predicate Keeps(db: DB, after: DB) {
    && |db.entries| <= |after.entries|
    && forall k, id :: id in IndexOf(db, k) ==> id in IndexOf(after, k) && IndexOf(after, k)[id] == IndexOf(db, k)[id]
  }

  lemma UpsertIndexes(db: DB, d: Details, now: int, i: int)
    requires Valid(db) && Find(db, d).Found?
    requires i == if Find(db, d).index < 0 then |db.entries| else Find(db, d).index
    ensures var after := AfterUpsert(db, d, now);
            && |after.entries| == (if i == |db.entries| then i + 1 else |db.entries|)
            && (forall k :: IndexOf(after, k) == Indexed(IndexOf(db, k), k, Given(d, k), i))
            && (forall k :: Id(after.entries[i], k) == if Given(d, k) != "" then Given(d, k)
                            else if i < |db.entries| then Id(db.entries[i], k) else "")
            && (forall j :: 0 <= j < |db.entries| && j != i ==> after.entries[j] == db.entries[j])
            && after.entries[i].followers == (if i < |db.entries| then db.entries[i].followers else [])
  {
    FoundInRange(db, d);
    var before := if i < |db.entries| then db.entries[i] else NO_USER.(created := now);
    assert AfterUpsert(db, d, now).entries[i] == Updated(before, d, now);
    forall k
      ensures Id(Updated(before, d, now), k) == if Given(d, k) != "" then Given(d, k) else Id(before, k)
    {
      UpdatedIds(before, d, now, k);
    }
    forall k
      ensures IndexOf(AfterUpsert(db, d, now), k) == Indexed(IndexOf(db, k), k, Given(d, k), i)
    {
      match k
      case Email =>
      case Bitbucket =>
      case GitHub =>
      case Slack =>
    }
  }

  /** An entry as it was, or a new one. */
  function EntryOrBlank(db: DB, i: int): User {
    if 0 <= i < |db.entries| then db.entries[i] else User("", "", "", "", "", "", [], 0, 0)
  }

  /** An accepted upsert stores what is given and keeps all else, of the entry found and of all others. */
  lemma UpsertMeans(db: DB, d: Details, now: int, i: int)
    requires Valid(db) && Find(db, d).Found?
    requires i == if Find(db, d).index < 0 then |db.entries| else Find(db, d).index
    ensures var after := AfterUpsert(db, d, now);
            && |after.entries| == (if i == |db.entries| then i + 1 else |db.entries|)
            && forall j :: 0 <= j < |db.entries| && j != i ==> after.entries[j] == db.entries[j]
    ensures var u, was := AfterUpsert(db, d, now).entries[i], EntryOrBlank(db, i);
            && u.email == (if d.email == "" then was.email else d.email)
            && u.realName == (if d.realName == "" then was.realName else d.realName)
            && u.bitbucketID == (if d.bitbucketID == "" then was.bitbucketID else d.bitbucketID)
            && u.githubID == (if d.githubID == "" then was.githubID else d.githubID)
            && u.slackID == (if d.slackID == "" then was.slackID else d.slackID)
            && (d.thrippyLink == "" ==> u.thrippyLink == was.thrippyLink)
            && (d.thrippyLink == "X" ==> u.thrippyLink == "")
            && (d.thrippyLink != "" && d.thrippyLink != "X" ==> u.thrippyLink == d.thrippyLink)
            && u.followers == was.followers && u.updated == now
            && u.created == if i == |db.entries| then now else was.created
    ensures var after := AfterUpsert(db, d, now);
            && (forall n :: n != d.realName || n == "" ==>
                              (n in after.name <==> n in db.name) && (n in db.name ==> after.name[n] == db.name[n]))
            && (d.realName != "" ==> d.realName in after.name && after.name[d.realName] == i)
  {
    FoundInRange(db, d);
  }

  lemma UpdatedIds(u: User, d: Details, now: int, k: Kind)
    ensures Id(Updated(u, d, now), k) == if Given(d, k) != "" then Given(d, k) else Id(u, k)
  {
  }

  lemma InRangeByKind(db: DB)
    ensures (forall k :: IndexInRange(IndexOf(db, k), k, |db.entries|)) <==>
            && IndexInRange(db.email, Email, |db.entries|) && IndexInRange(db.bitbucket, Bitbucket, |db.entries|)
            && IndexInRange(db.github, GitHub, |db.entries|) && IndexInRange(db.slack, Slack, |db.entries|)
  {
    assert IndexOf(db, Email) == db.email && IndexOf(db, Bitbucket) == db.bitbucket;
    assert IndexOf(db, GitHub) == db.github && IndexOf(db, Slack) == db.slack;
  }

  lemma IndexedKeeps(index: Index, k: Kind, id: string, i: int, n: nat, m: nat)
    requires IndexInRange(index, k, n) && n <= m && 0 <= i < m
    requires id in index ==> index[id] == i
    ensures IndexInRange(Indexed(index, k, id, i), k, m)
    ensures forall x :: x in index ==> x in Indexed(index, k, id, i) && Indexed(index, k, id, i)[x] == index[x]
  {
  }

  lemma UpsertKeepsIndex(db: DB, d: Details, i: int, k: Kind, n: nat)
    requires Valid(db) && Find(db, d).Found? && IndexInRange(IndexOf(db, k), k, |db.entries|)
    requires i == if Find(db, d).index < 0 then |db.entries| else Find(db, d).index
    requires |db.entries| <= n && 0 <= i < n
    ensures var after := Indexed(IndexOf(db, k), k, Given(d, k), i);
            && IndexInRange(after, k, n)
            && forall id :: id in IndexOf(db, k) ==> id in after && after[id] == IndexOf(db, k)[id]
  {
    if Given(d, k) in IndexOf(db, k) {
      FoundAgreesWithIndexes(db, d, k);
    }
    IndexedKeeps(IndexOf(db, k), k, Given(d, k), i, |db.entries|, n);
  }

  lemma UpsertKeepsKind(db: DB, d: Details, now: int, k: Kind)
    requires Valid(db) && Find(db, d).Found?
    ensures var after := AfterUpsert(db, d, now);
            && IndexInRange(IndexOf(after, k), k, |after.entries|)
            && forall id :: id in IndexOf(db, k) ==>
                              id in IndexOf(after, k) && IndexOf(after, k)[id] == IndexOf(db, k)[id]
  {
    var i := if Find(db, d).index < 0 then |db.entries| else Find(db, d).index;
    UpsertIndexes(db, d, now, i);
    FoundInRange(db, d);
    InRangeByKind(db);
    UpsertKeepsIndex(db, d, i, k, |AfterUpsert(db, d, now).entries|);
  }

  lemma UpsertKeepsNames(db: DB, d: Details, now: int)
    requires Valid(db) && Find(db, d).Found?
    ensures var after := AfterUpsert(db, d, now);
            && |db.entries| <= |after.entries| && "" !in after.name
            && forall n :: n in after.name ==> NON_UNIQUE <= after.name[n] < |after.entries|
  {
    FoundInRange(db, d);
  }

  lemma UpsertKeepsIndexes(db: DB, d: Details, now: int)
    requires Valid(db) && Find(db, d).Found?
    ensures InRange(AfterUpsert(db, d, now)) && Keeps(db, AfterUpsert(db, d, now))
  {
    var after := AfterUpsert(db, d, now);
    forall k
      ensures IndexInRange(IndexOf(after, k), k, |after.entries|)
      ensures forall id :: id in IndexOf(db, k) ==>
                             id in IndexOf(after, k) && IndexOf(after, k)[id] == IndexOf(db, k)[id]
    {
      UpsertKeepsKind(db, d, now, k);
    }
    InRangeByKind(after);
    UpsertKeepsNames(db, d, now);
  }

  lemma UpsertKeepsHeld(db: DB, d: Details, now: int)
    requires Valid(db) && Find(db, d).Found?
    ensures HeldAreIndexed(AfterUpsert(db, d, now))
  {
    var i := if Find(db, d).index < 0 then |db.entries| else Find(db, d).index;
    var after := AfterUpsert(db, d, now);
    UpsertIndexes(db, d, now, i);
    UpsertKeepsIndexes(db, d, now);
    forall j, k, id | Holds(after.entries, j, k, id)
      ensures id in IndexOf(after, k) && IndexOf(after, k)[id] == j
    {
      assert IndexOf(after, k) == Indexed(IndexOf(db, k), k, Given(d, k), i);
      if j != i || Given(d, k) == "" {
        assert Holds(db.entries, j, k, id);
      }
    }
  }

  /** One entry gets another Slack ID, or is appended, and keeps its followers. */
  lemma SlackIDsStay(before: seq<User>, after: seq<User>, slack: Index, id: string, i: int)
    requires |before| <= |after| && 0 <= i < |after| <= |before| + 1 && (|after| > |before| ==> i == |before|)
    requires IndexInRange(slack, Slack, |before|)
    requires forall j :: 0 <= j < |before| && j != i ==> after[j] == before[j]
    requires after[i].followers == if i < |before| then before[i].followers else []
    requires after[i].slackID == if id != "" then id else if i < |before| then before[i].slackID else ""
    requires FollowableEntries(before) && forall x :: x in slack ==> before[slack[x]].slackID != ""
    ensures FollowableEntries(after)
    ensures forall x :: x in Indexed(slack, Slack, id, i) ==> after[Indexed(slack, Slack, id, i)[x]].slackID != ""
  {
  }

  lemma UpsertKeepsFollowable(db: DB, d: Details, now: int)
    requires Valid(db) && Find(db, d).Found?
    ensures Followable(AfterUpsert(db, d, now))
  {
    var i := if Find(db, d).index < 0 then |db.entries| else Find(db, d).index;
    var after := AfterUpsert(db, d, now);
    UpsertIndexes(db, d, now, i);
    FoundInRange(db, d);
    assert Id(after.entries[i], Slack) == after.entries[i].slackID;
    assert after.slack == Indexed(db.slack, Slack, d.slackID, i);
    assert forall x :: x in db.slack ==> 0 <= db.slack[x] < |db.entries|;
    SlackIDsStay(db.entries, after.entries, db.slack, d.slackID, i);
  }

  lemma UpsertKeepsValid(db: DB, d: Details, now: int)
    requires Valid(db)
    ensures Valid(AfterUpsert(db, d, now)) && Keeps(db, AfterUpsert(db, d, now))
  {
    if Find(db, d).Found? {
      UpsertKeepsIndexes(db, d, now);
      UpsertKeepsHeld(db, d, now);
      UpsertKeepsFollowable(db, d, now);
    }
  }

  lemma FollowersKeepValid(db: DB, after: DB)
    requires Valid(db)
    requires after.(entries := db.entries) == db && |after.entries| == |db.entries|
    requires forall i :: 0 <= i < |db.entries| ==>
                           after.entries[i].(followers := db.entries[i].followers, updated := db.entries[i].updated)
                           == db.entries[i]
    requires forall i :: 0 <= i < |after.entries| ==> StrictlySorted(after.entries[i].followers)
    requires forall i :: 0 <= i < |after.entries| && after.entries[i].followers != [] ==> after.entries[i].slackID != ""
    ensures Valid(after) && Keeps(db, after)
  {
    forall i, k | 0 <= i < |db.entries|
      ensures Id(after.entries[i], k) == Id(db.entries[i], k)
    {
      assert after.entries[i].(followers := db.entries[i].followers, updated := db.entries[i].updated) == db.entries[i];
    }
    assert forall k :: IndexOf(after, k) == IndexOf(db, k);
    forall i, k, id | Holds(after.entries, i, k, id)
      ensures id in IndexOf(after, k) && IndexOf(after, k)[id] == i
    {
      assert Holds(db.entries, i, k, id);
    }
  }

  lemma FollowKeepsValid(db: DB, follower: string, followed: string, now: int)
    requires Valid(db)
    ensures Valid(AfterFollow(db, follower, followed, now)) && Keeps(db, AfterFollow(db, follower, followed, now))
  {
    var i := BySlackID(db, followed);
    if i >= 0 && follower !in db.entries[i].followers {
      SortedWithNewcomer(db.entries[i].followers, follower);
      FollowersKeepValid(db, AfterFollow(db, follower, followed, now));
    }
  }

  lemma UnfollowKeepsValid(db: DB, follower: string, followed: string, now: int)
    requires Valid(db)
    ensures Valid(AfterUnfollow(db, follower, followed, now)) && Keeps(db, AfterUnfollow(db, follower, followed, now))
  {
    var i := BySlackID(db, followed);
    if i >= 0 && follower in db.entries[i].followers {
      WithoutSorted(db.entries[i].followers, follower);
      FollowersKeepValid(db, AfterUnfollow(db, follower, followed, now));
    }
  }

  lemma RemoveFollowerKeepsValid(db: DB, follower: string, now: int)
    requires Valid(db)
    ensures Valid(AfterRemoveFollower(db, follower, now)) && Keeps(db, AfterRemoveFollower(db, follower, now))
  {
    forall i | 0 <= i < |db.entries|
      ensures StrictlySorted(Without(db.entries[i].followers, follower))
    {
      WithoutSorted(db.entries[i].followers, follower);
    }
    FollowersKeepValid(db, AfterRemoveFollower(db, follower, now));
  }

  /** Every change keeps the database valid, and re-points no ID. */
  lemma StepKeepsValid(db: DB, c: Change, now: int)
    requires Valid(db)
    ensures Valid(Step(db, c, now)) && Keeps(db, Step(db, c, now))
  {
    match c
    case Upsert(d) => UpsertKeepsValid(db, d, now);
    case Follow(a, b) => FollowKeepsValid(db, a, b, now);
    case Unfollow(a, b) => UnfollowKeepsValid(db, a, b, now);
    case RemoveFollower(a) => RemoveFollowerKeepsValid(db, a, now);
  }

  ghost predicate IsRun(dbs: seq<DB>, changes: seq<(Change, int)>) {
    && |dbs| == |changes| + 1
    && Valid(dbs[0])
    && forall t :: 0 <= t < |changes| ==> InRange(dbs[t]) && dbs[t + 1] == Step(dbs[t], changes[t].0, changes[t].1)
  }

  lemma KeepsTransitive(a: DB, b: DB, c: DB)
    requires Keeps(a, b) && Keeps(b, c)
    ensures Keeps(a, c)
  {
  }

  ghost predicate KeepsValid(a: DB, b: DB) {
    Valid(a) ==> Valid(b) && Keeps(a, b)
  }

  lemma {:induction false} KeptAllAlong(dbs: seq<DB>, s: nat, t: nat)
    requires s <= t < |dbs| && Valid(dbs[0])
    requires forall u: nat :: u + 1 < |dbs| ==> KeepsValid(dbs[u], dbs[u + 1])
    ensures Valid(dbs[t]) && Keeps(dbs[s], dbs[t])
    decreases t
  {
    if t > 0 {
      assert KeepsValid(dbs[t - 1], dbs[t - 1 + 1]);
      KeptAllAlong(dbs, if s < t then s else t - 1, t - 1);
      if s < t {
        KeepsTransitive(dbs[s], dbs[t - 1], dbs[t]);
      }
    }
  }

  /** Over any run, the database stays valid and an ID that once resolves to an entry always resolves to that entry. */
  lemma RunsKeepIds(dbs: seq<DB>, changes: seq<(Change, int)>, s: nat, t: nat)
    requires IsRun(dbs, changes) && s <= t < |dbs|
    ensures Valid(dbs[t]) && Keeps(dbs[s], dbs[t])
  {
    forall u: nat | u + 1 < |dbs|
      ensures KeepsValid(dbs[u], dbs[u + 1])
    {
      if Valid(dbs[u]) {
        StepKeepsValid(dbs[u], changes[u].0, changes[u].1);
      }
    }
    KeptAllAlong(dbs, s, t);
  }

  /** A change that gives entry `i` a Thrippy link, or withdraws it. */
  ghost predicate GivesLink(db: DB, c: Change, i: int) {
    c.Upsert? && c.details.thrippyLink != "" && Find(db, c.details) == Found(i)
  }

  lemma StepKeepsLink(db: DB, c: Change, now: int, i: int)
    requires Valid(db) && 0 <= i < |db.entries| && !GivesLink(db, c, i)
    ensures |Step(db, c, now).entries| >= |db.entries|
    ensures Step(db, c, now).entries[i].thrippyLink == db.entries[i].thrippyLink
  {
    match c
    case Upsert(d) =>
      if Find(db, d).Found? {
        UpsertMeans(db, d, now, if Find(db, d).index < 0 then |db.entries| else Find(db, d).index);
      }
    case Follow(a, b) => FollowMeans(db, a, b, now);
    case Unfollow(a, b) => UnfollowMeans(db, a, b, now);
    case RemoveFollower(a) => RemovedFromEveryList(db, a, now);
  }

  predicate LinkStays(a: DB, b: DB, i: nat) {
    i < |a.entries| ==> i < |b.entries| && b.entries[i].thrippyLink == a.entries[i].thrippyLink
  }

  lemma {:induction false} LinkStaysAllAlong(dbs: seq<DB>, s: nat, t: nat, i: nat)
    requires s <= t < |dbs| && forall u: nat :: s <= u < t ==> LinkStays(dbs[u], dbs[u + 1], i)
    ensures LinkStays(dbs[s], dbs[t], i)
    decreases t
  {
    if s < t {
      LinkStaysAllAlong(dbs, s, t - 1, i);
      assert LinkStays(dbs[t - 1], dbs[t - 1 + 1], i);
    }
  }

  /** Over any run, the Thrippy link of an entry changes only by an upsert of that entry that gives one. */
  lemma LinksAreKept(dbs: seq<DB>, changes: seq<(Change, int)>, s: nat, t: nat, i: nat)
    requires IsRun(dbs, changes) && s <= t < |dbs| && i < |dbs[s].entries|
    requires forall u :: s <= u < t ==> !GivesLink(dbs[u], changes[u].0, i)
    ensures i < |dbs[t].entries| && dbs[t].entries[i].thrippyLink == dbs[s].entries[i].thrippyLink
  {
    forall u: nat | s <= u < t
      ensures LinkStays(dbs[u], dbs[u + 1], i)
    {
      RunsKeepIds(dbs, changes, s, u);
      if i < |dbs[u].entries| {
        StepKeepsLink(dbs[u], changes[u].0, changes[u].1, i);
      }
    }
    LinkStaysAllAlong(dbs, s, t, i);
    assert LinkStays(dbs[s], dbs[t], i);
  }

  // ----- Rebuilding the indexes from the entries

  function LowerChar(c: char): char {
    if 'A' <= c <= 'Z' then c + 32 as char else c
  }

  function ToLower(s: string): string {
    if s == [] then [] else [LowerChar(s[0])] + ToLower(s[1..])
  }

  /** Capital letters become the small letters at the same place in the alphabet, and all else stays. */
  lemma {:induction false} ToLowerMeans(s: string)
    ensures |ToLower(s)| == |s|
    ensures forall i :: 0 <= i < |s| ==>
              if s[i] in "ABCDEFGHIJKLMNOPQRSTUVWXYZ"
              then 'a' <= ToLower(s)[i] <= 'z' && ToLower(s)[i] as int - 'a' as int == s[i] as int - 'A' as int
              else ToLower(s)[i] == s[i]
  {
    if s != "" {
      ToLowerMeans(s[1..]);
      LowerCharMeans(s[0]);
      forall i | 0 < i < |s|
        ensures ToLower(s)[i] == ToLower(s[1..])[i - 1] && s[i] == s[1..][i - 1]
      {
      }
    }
  }

  lemma LowerCharMeans(c: char)
    ensures if c in "ABCDEFGHIJKLMNOPQRSTUVWXYZ"
            then 'a' <= LowerChar(c) <= 'z' && LowerChar(c) as int - 'a' as int == c as int - 'A' as int
            else LowerChar(c) == c
  {
    var letters := "ABCDEFGHIJKLMNOPQRSTUVWXYZ";
    assert forall i :: 0 <= i < 26 ==> letters[i] as int == 'A' as int + i;
    if 'A' <= c <= 'Z' {
      assert letters[c as int - 'A' as int] == c;
    }
  }

  /** Email addresses are lower-cased when the file is read. */
  function Normalized(u: User): User {
    if Indexable(Email, u.email) then u.(email := ToLower(u.email)) else u
  }

  ghost predicate HeldBy(entries: seq<User>, k: Kind, id: string) {
    exists i :: Holds(entries, i, k, id)
  }

  /** `index` maps exactly the held IDs, each to its last holder. */
  ghost predicate IndexesLast(entries: seq<User>, k: Kind, index: Index) {
    && (forall id :: id in index <==> HeldBy(entries, k, id))
    && (forall id :: id in index ==> Holds(entries, index[id], k, id))
    && (forall id, j :: id in index && index[id] < j ==> !Holds(entries, j, k, id))
  }

  predicate HasName(entries: seq<User>, i: int, n: string) {
    0 <= i < |entries| && n != "" && entries[i].realName == n
  }

  /** `index` maps exactly the names in use, and marks those with more than one holder. */
  ghost predicate IndexesNames(entries: seq<User>, index: Index) {
    && (forall n :: n in index <==> exists i :: HasName(entries, i, n))
    && (forall n :: n in index ==> index[n] == NON_UNIQUE || HasName(entries, index[n], n))
    && (forall n :: n in index && index[n] == NON_UNIQUE ==>
                      exists i, j :: i < j && HasName(entries, i, n) && HasName(entries, j, n))
    && (forall n, j :: n in index && index[n] != NON_UNIQUE && HasName(entries, j, n) ==> j == index[n])
  }

  ghost predicate IsRebuild(entries: seq<User>, db: DB) {
    && db.entries == entries
    && (forall k :: IndexesLast(entries, k, IndexOf(db, k)))
    && IndexesNames(entries, db.name)
  }

  ghost predicate AllLowerCase(entries: seq<User>) {
    forall i :: 0 <= i < |entries| ==> Normalized(entries[i]) == entries[i]
  }

  /** No two entries share an ID. */
  ghost predicate IdsAreUnique(entries: seq<User>) {
    forall i, j, k, id :: Holds(entries, i, k, id) && Holds(entries, j, k, id) ==> i == j
  }

  /** A database just read is valid exactly if the file has unique IDs and is fit for following. */
  lemma RebuildIsValidExactly(db: DB)
    requires IsRebuild(db.entries, db)
    ensures Valid(db) <==> IdsAreUnique(db.entries) && FollowableEntries(db.entries)
  {
    assert forall k :: IndexesLast(db.entries, k, IndexOf(db, k));
    if Valid(db) {
      forall i, j, k, id | Holds(db.entries, i, k, id) && Holds(db.entries, j, k, id)
        ensures i == j
      {
        HeldIdsAreUnique(db, i, j, k, id);
      }
    }
    if IdsAreUnique(db.entries) && FollowableEntries(db.entries) {
      forall i, k, id | Holds(db.entries, i, k, id)
        ensures id in IndexOf(db, k) && IndexOf(db, k)[id] == i
      {
        assert HeldBy(db.entries, k, id);
        assert Holds(db.entries, IndexOf(db, k)[id], k, id);
      }
      RebuildInRange(db);
      assert db.slack == IndexOf(db, Slack);
      assert forall id :: id in db.slack ==> Holds(db.entries, db.slack[id], Slack, id);
    }
  }

  lemma RebuildInRange(db: DB)
    requires IsRebuild(db.entries, db)
    ensures InRange(db)
  {
    forall k
      ensures IndexInRange(IndexOf(db, k), k, |db.entries|)
    {
      assert IndexesLast(db.entries, k, IndexOf(db, k));
      assert forall id :: id in IndexOf(db, k) ==> Holds(db.entries, IndexOf(db, k)[id], k, id);
    }
    InRangeByKind(db);
  }

  /** Any run of changes that starts by reading a file with unique IDs. */
  ghost predicate IsRunFromFile(dbs: seq<DB>, changes: seq<(Change, int)>) {
    && |dbs| == |changes| + 1
    && IsRebuild(dbs[0].entries, dbs[0]) && IdsAreUnique(dbs[0].entries) && FollowableEntries(dbs[0].entries)
    && forall t :: 0 <= t < |changes| ==> InRange(dbs[t]) && dbs[t + 1] == Step(dbs[t], changes[t].0, changes[t].1)
  }

  /**
   * From a file with unique IDs on, over any run: every ID that an entry holds is indexed to that entry, no two
   * entries ever share one, and an ID that once resolves to an entry always resolves to that entry.
   */
  lemma RunsFromFileKeepIds(dbs: seq<DB>, changes: seq<(Change, int)>, s: nat, t: nat)
    requires IsRunFromFile(dbs, changes) && s <= t < |dbs|
    ensures HeldAreIndexed(dbs[t]) && IdsAreUnique(dbs[t].entries) && Keeps(dbs[s], dbs[t]) && Valid(dbs[t])
  {
    RebuildIsValidExactly(dbs[0]);
    RunsKeepIds(dbs, changes, s, t);
    forall i, j, k, id | Holds(dbs[t].entries, i, k, id) && Holds(dbs[t].entries, j, k, id)
      ensures i == j
    {
      HeldIdsAreUnique(dbs[t], i, j, k, id);
    }
  }

  /**
   * Rebuilt indexes resolve every unique ID they know to the same entry as the live ones, and they forget
   * exactly the IDs that no entry holds any more. A name is marked exactly when two or more entries have it.
   */
  lemma RebuildAgrees(db: DB, rebuilt: DB)
    requires Valid(db) && IsRebuild(db.entries, rebuilt)
    ensures forall k, id :: id in IndexOf(rebuilt, k) ==>
                              id in IndexOf(db, k) && IndexOf(db, k)[id] == IndexOf(rebuilt, k)[id]
    ensures forall k, id :: id in IndexOf(db, k) ==> (id in IndexOf(rebuilt, k) <==> HeldBy(db.entries, k, id))
    ensures forall n :: n in rebuilt.name && rebuilt.name[n] == NON_UNIQUE <==>
                        exists i, j :: i < j && HasName(db.entries, i, n) && HasName(db.entries, j, n)
    ensures Valid(rebuilt)
  {
    assert forall k :: IndexesLast(db.entries, k, IndexOf(rebuilt, k));
    forall k, id | id in IndexOf(rebuilt, k)
      ensures id in IndexOf(db, k) && IndexOf(db, k)[id] == IndexOf(rebuilt, k)[id]
    {
      assert Holds(db.entries, IndexOf(rebuilt, k)[id], k, id);
    }
    forall n, i, j | i < j && HasName(db.entries, i, n) && HasName(db.entries, j, n)
      ensures n in rebuilt.name && rebuilt.name[n] == NON_UNIQUE
    {
    }
    forall i, j, k, id | Holds(db.entries, i, k, id) && Holds(db.entries, j, k, id)
      ensures i == j
    {
      HeldIdsAreUnique(db, i, j, k, id);
    }
    RebuildIsValidExactly(rebuilt);
  }
}

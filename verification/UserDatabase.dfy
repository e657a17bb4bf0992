/** The in-memory user database, updated in place. */
module UserDatabase {
  import opened Ordering
  import opened Users

  const INDEX_BY_EMAIL := 1
  const INDEX_BY_BITBUCKET_ID := 2
  const INDEX_BY_GITHUB_ID := 3
  const INDEX_BY_SLACK_ID := 4
  const INDEX_BY_REAL_NAME := 5

  datatype Selection = Selected(user: User) | InvalidIndexType

  /** The index that an index type stands for. */
  function IndexOfType(db: DB, indexType: int): Index
    requires INDEX_BY_EMAIL <= indexType <= INDEX_BY_REAL_NAME
  {
    if indexType == INDEX_BY_EMAIL then db.email
    else if indexType == INDEX_BY_BITBUCKET_ID then db.bitbucket
    else if indexType == INDEX_BY_GITHUB_ID then db.github
    else if indexType == INDEX_BY_SLACK_ID then db.slack
    else db.name
  }

  /** The numbers by which callers ask for an entry with a unique ID of some kind. */
  function TypeOfKind(k: Kind): int {
    match k
    case Email => 1
    case Bitbucket => 2
    case GitHub => 3
    case Slack => 4
  }

  ghost predicate HasOneHolder(entries: seq<User>, name: string) {
    exists i :: HasName(entries, i, name) && forall j :: HasName(entries, j, name) ==> j == i
  }

  lemma OneMoreHolder(entries: seq<User>, u: User, k: Kind, index: Index)
    requires IndexesLast(entries, k, index)
    ensures IndexesLast(entries + [u], k, Indexed(index, k, Id(u, k), |entries|))
  {
    var n := |entries|;
    var after := Indexed(index, k, Id(u, k), n);
    forall i, id | 0 <= i <= n
      ensures Holds(entries + [u], i, k, id) <==>
              Holds(entries, i, k, id) || (i == n && Indexable(k, id) && id == Id(u, k))
    {
    }
    forall id
      ensures HeldBy(entries + [u], k, id) <==> id in after
    {
      if HeldBy(entries, k, id) {
        var i :| Holds(entries, i, k, id);
        assert Holds(entries + [u], i, k, id);
      }
      if Indexable(k, id) && id == Id(u, k) {
        assert Holds(entries + [u], n, k, id);
      }
    }
    forall id | id in after
      ensures Holds(entries + [u], after[id], k, id)
    {
    }
  }

  /** How a name is indexed or marked as non-unique. */
  function NameIndexed(index: Index, n: string, i: int): Index {
    if n == "" then index else index[n := if n in index then NON_UNIQUE else i]
  }

  lemma OneMoreName(entries: seq<User>, u: User, index: Index)
    requires IndexesNames(entries, index)
    ensures IndexesNames(entries + [u], NameIndexed(index, u.realName, |entries|))
  {
    var n := |entries|;
    var all := entries + [u];
    var after := NameIndexed(index, u.realName, n);
    forall i, name | 0 <= i <= n
      ensures HasName(all, i, name) <==> HasName(entries, i, name) || (i == n && name != "" && name == u.realName)
    {
    }
    forall name
      ensures name in after <==> exists i :: HasName(all, i, name)
    {
      if name in index {
        var i :| HasName(entries, i, name);
        assert HasName(all, i, name);
      }
      if name != "" && name == u.realName {
        assert HasName(all, n, name);
      }
    }
    forall name | name in after && after[name] == NON_UNIQUE
      ensures exists i, j :: i < j && HasName(all, i, name) && HasName(all, j, name)
    {
      if name == u.realName {
        var i :| HasName(entries, i, name);
        assert i < n && HasName(all, i, name) && HasName(all, n, name);
      } else {
        var i, j :| i < j && HasName(entries, i, name) && HasName(entries, j, name);
        assert HasName(all, i, name) && HasName(all, j, name);
      }
    }
  }

  function AllNormalized(saved: seq<User>): seq<User> {
    seq(|saved|, i requires 0 <= i < |saved| => Normalized(saved[i]))
  }

  /** Bots are recognised before lower-casing, so their pseudo address is meant to be in lower case already. */
  ghost predicate BotsAreLowerCase(saved: seq<User>) {
    forall u :: u in saved && ToLower(u.email) == "bot" ==> u.email == "bot"
  }

  lemma LowerKeepsLength(s: string)
    ensures |ToLower(s)| == |s|
  {
  }

  /** Entry `i` of the file has this email address, which gets indexed. */
  predicate HasEmail(saved: seq<User>, i: int, id: string) {
    0 <= i < |saved| && Indexable(Email, saved[i].email) && ToLower(saved[i].email) == id
  }

  /** `index` maps exactly the lower-cased email addresses of the file, each to its last holder. */
  ghost predicate IndexesEmails(saved: seq<User>, index: Index) {
    && (forall id :: id in index <==> exists i :: HasEmail(saved, i, id))
    && (forall id :: id in index ==> HasEmail(saved, index[id], id))
    && (forall id, j :: id in index && index[id] < j ==> !HasEmail(saved, j, id))
  }

  function EmailIndexed(index: Index, email: string, i: int): Index {
    if Indexable(Email, email) then index[ToLower(email) := i] else index
  }

  lemma OneMoreEmail(saved: seq<User>, u: User, index: Index)
    requires IndexesEmails(saved, index)
    ensures IndexesEmails(saved + [u], EmailIndexed(index, u.email, |saved|))
  {
    var n := |saved|;
    var after := EmailIndexed(index, u.email, n);
    forall i, id | 0 <= i <= n
      ensures HasEmail(saved + [u], i, id) <==>
              HasEmail(saved, i, id) || (i == n && Indexable(Email, u.email) && id == ToLower(u.email))
    {
    }
    forall id
      ensures (exists i :: HasEmail(saved + [u], i, id)) <==> id in after
    {
      if i :| HasEmail(saved, i, id) {
        assert HasEmail(saved + [u], i, id);
      }
      if Indexable(Email, u.email) && id == ToLower(u.email) {
        assert HasEmail(saved + [u], n, id);
      }
    }
  }

  /** Exactly if bots are spelled in lower case, the email index is one of the entries as they are in memory. */
  lemma EmailIndexIsRebuiltExactly(saved: seq<User>, index: Index)
    requires IndexesEmails(saved, index)
    ensures IndexesLast(AllNormalized(saved), Email, index) <==> BotsAreLowerCase(saved)
  {
    var read := AllNormalized(saved);
    if BotsAreLowerCase(saved) {
      forall i, id
        ensures HasEmail(saved, i, id) <==> Holds(read, i, Email, id)
      {
        if 0 <= i < |saved| {
          assert saved[i] in saved;
          LowerKeepsLength(saved[i].email);
        }
      }
    } else {
      var u :| u in saved && ToLower(u.email) == "bot" && u.email != "bot";
      var i :| 0 <= i < |saved| && saved[i] == u;
      assert HasEmail(saved, i, "bot");
      assert !HeldBy(read, Email, "bot");
    }
  }

  /** The indexes of `db` are those of the first `n` entries. */
  ghost predicate IndexesFirst(saved: seq<User>, n: nat, db: DB)
    requires n <= |saved|
  {
    var read := AllNormalized(saved)[..n];
    && IndexesEmails(saved[..n], db.email)
    && IndexesLast(read, Bitbucket, db.bitbucket)
    && IndexesLast(read, GitHub, db.github)
    && IndexesLast(read, Slack, db.slack)
    && IndexesNames(read, db.name)
  }

  lemma NormalizedOneMore(saved: seq<User>, i: nat)
    requires i < |saved|
    ensures AllNormalized(saved)[..i + 1] == AllNormalized(saved)[..i] + [Normalized(saved[i])]
    ensures AllNormalized(saved)[..i + 1] + saved[i + 1..] ==
            (AllNormalized(saved)[..i] + saved[i..])[i := Normalized(saved[i])]
  {
  }

  /** What indexing one more entry does. */
  ghost predicate EntryIndexed(i: nat, before: DB, after: DB)
    requires i < |before.entries|
  {
    var u := before.entries[i];
    && after.entries == before.entries[i := Normalized(u)]
    && after.email == EmailIndexed(before.email, u.email, i)
    && after.bitbucket == Indexed(before.bitbucket, Bitbucket, u.bitbucketID, i)
    && after.github == Indexed(before.github, GitHub, u.githubID, i)
    && after.slack == Indexed(before.slack, Slack, u.slackID, i)
    && after.name == NameIndexed(before.name, u.realName, i)
  }

  lemma OneMoreEntry(saved: seq<User>, i: nat, before: DB, after: DB)
    requires i < |saved| && i < |before.entries| && before.entries[i] == saved[i]
    requires IndexesFirst(saved, i, before) && EntryIndexed(i, before, after)
    ensures IndexesFirst(saved, i + 1, after)
  {
    var read := AllNormalized(saved)[..i];
    var u := Normalized(saved[i]);
    NormalizedOneMore(saved, i);
    assert saved[..i + 1] == saved[..i] + [saved[i]];
    OneMoreEmail(saved[..i], saved[i], before.email);
    OneMoreHolder(read, u, Bitbucket, before.bitbucket);
    OneMoreHolder(read, u, GitHub, before.github);
    OneMoreHolder(read, u, Slack, before.slack);
    OneMoreName(read, u, before.name);
  }

  /** The first `n` entries have been normalized and indexed. */
  ghost predicate HasRead(saved: seq<User>, n: nat, db: DB)
    requires n <= |saved|
  {
    db.entries == AllNormalized(saved)[..n] + saved[n..] && IndexesFirst(saved, n, db)
  }

  lemma NothingReadYet(saved: seq<User>)
    ensures HasRead(saved, 0, DB(saved, map[], map[], map[], map[], map[]))
  {
    assert AllNormalized(saved)[..0] == [] && saved[0..] == saved && saved[..0] == [];
  }

  lemma HasReadOneMore(saved: seq<User>, i: nat, before: DB, after: DB)
    requires i < |saved| && HasRead(saved, i, before) && EntryIndexed(i, before, after)
    ensures HasRead(saved, i + 1, after)
  {
    assert before.entries[i] == saved[i];
    NormalizedOneMore(saved, i);
    OneMoreEntry(saved, i, before, after);
  }

  lemma HasReadAll(saved: seq<User>, db: DB)
    requires HasRead(saved, |saved|, db)
    ensures db.entries == AllNormalized(saved) && IndexesEmails(saved, db.email)
    ensures IsRebuild(db.entries, db) <==> BotsAreLowerCase(saved)
    ensures BotsAreLowerCase(saved) ==> (Valid(db) <==> IdsAreUnique(db.entries) && FollowableEntries(db.entries))
  {
    var read := AllNormalized(saved);
    assert db.entries == read && read[..|saved|] == read && saved[..|saved|] == saved;
    EmailIndexIsRebuiltExactly(saved, db.email);
    assert IndexOf(db, Email) == db.email;
    forall k
      ensures k == Email || IndexesLast(read, k, IndexOf(db, k))
    {
      match k
      case Email =>
      case Bitbucket =>
      case GitHub =>
      case Slack =>
    }
    if BotsAreLowerCase(saved) {
      RebuildIsValidExactly(db);
    }
  }

  /** The follower was removed from the first `n` entries, and nothing else has changed. */
  ghost predicate RemovedFirst(before: DB, follower: string, now: int, n: nat, db: DB) {
    && |db.entries| == |before.entries| && db == before.(entries := db.entries)
    && forall j :: 0 <= j < |db.entries| ==>
                     db.entries[j] == if j < n then Unfollowed(before.entries[j], follower, now) else before.entries[j]
  }

  class UsersDB {
    var entries: seq<User>
    var emailIndex: Index
    var bitbucketIndex: Index
    var githubIndex: Index
    var slackIndex: Index
    var nameIndex: Index

    ghost function View(): DB
      reads this
    {
      DB(entries, emailIndex, bitbucketIndex, githubIndex, slackIndex, nameIndex)
    }

    /** Reads the saved entries and builds the indexes. */
    constructor ReadUsersFile(saved: seq<User>)
      ensures entries == AllNormalized(saved) && IndexesEmails(saved, emailIndex)
      ensures IsRebuild(entries, View()) <==> BotsAreLowerCase(saved)
      ensures BotsAreLowerCase(saved) ==> (Valid(View()) <==> IdsAreUnique(entries) && FollowableEntries(entries))
    {
      entries := saved;
      emailIndex, bitbucketIndex, githubIndex, slackIndex, nameIndex := map[], map[], map[], map[], map[];
      new;
      NothingReadYet(saved);
      for i := 0 to |saved|
        invariant HasRead(saved, i, View())
      {
        ghost var before := View();
        assert i < |before.entries|;
        IndexEntry(i);
        HasReadOneMore(saved, i, before, View());
      }
      HasReadAll(saved, View());
    }

    /** The body of the loop that builds the indexes. */
    method IndexEntry(i: nat)
      requires i < |entries|
      modifies this
      ensures EntryIndexed(i, old(View()), View())
    {
      var user := entries[i];
      if user.email != "" && user.email != "bot" {
        user := user.(email := ToLower(user.email));
        entries := entries[i := user];
        emailIndex := emailIndex[user.email := i];
      }
      IndexIDs(user, i);
      IndexName(user.realName, i);
    }

    method IndexIDs(user: User, i: nat)
      modifies `bitbucketIndex, `githubIndex, `slackIndex
      ensures bitbucketIndex == Indexed(old(bitbucketIndex), Bitbucket, user.bitbucketID, i)
      ensures githubIndex == Indexed(old(githubIndex), GitHub, user.githubID, i)
      ensures slackIndex == Indexed(old(slackIndex), Slack, user.slackID, i)
    {
      if user.bitbucketID != "" {
        bitbucketIndex := bitbucketIndex[user.bitbucketID := i];
      }
      if user.githubID != "" {
        githubIndex := githubIndex[user.githubID := i];
      }
      if user.slackID != "" {
        slackIndex := slackIndex[user.slackID := i];
      }
    }

    method IndexName(name: string, i: nat)
      modifies `nameIndex
      ensures nameIndex == NameIndexed(old(nameIndex), name, i)
    {
      if name != "" {
        if name in nameIndex {
          nameIndex := nameIndex[name := NON_UNIQUE];
        } else {
          nameIndex := nameIndex[name := i];
        }
      }
    }

    /** The entry that all known identifiers agree on, -1 if none is known, or a conflict. */
    method FindUserIndex(d: Details) returns (r: Result)
      ensures r == Find(View(), d)
    {
      var i := -1;
      if d.email in emailIndex {
        i := emailIndex[d.email];
      }
      if d.realName in nameIndex {
        if i >= 0 && i != nameIndex[d.realName] {
          return Conflict;
        }
        i := nameIndex[d.realName];
      }
      if d.bitbucketID in bitbucketIndex {
        if i >= 0 && i != bitbucketIndex[d.bitbucketID] {
          return Conflict;
        }
        i := bitbucketIndex[d.bitbucketID];
      }
      if d.githubID in githubIndex {
        if i >= 0 && i != githubIndex[d.githubID] {
          return Conflict;
        }
        i := githubIndex[d.githubID];
      }
      if d.slackID in slackIndex {
        if i >= 0 && i != slackIndex[d.slackID] {
          return Conflict;
        }
        i := slackIndex[d.slackID];
      }
      return Found(i);
    }

    /** Writes the given details into an entry and the indexes; empty ones overwrite nothing. */
    method StoreDetails(i: nat, d: Details, now: int)
      requires i < |entries|
      modifies this
      ensures entries == old(entries)[i := Updated(old(entries)[i], d, now)]
      ensures emailIndex == Indexed(old(emailIndex), Email, d.email, i)
      ensures bitbucketIndex == Indexed(old(bitbucketIndex), Bitbucket, d.bitbucketID, i)
      ensures githubIndex == Indexed(old(githubIndex), GitHub, d.githubID, i)
      ensures slackIndex == Indexed(old(slackIndex), Slack, d.slackID, i)
      ensures nameIndex == if d.realName != "" then old(nameIndex)[d.realName := i] else old(nameIndex)
    {
      var entry := entries[i].(updated := now);
      var byEmail, byBitbucket, byGitHub := emailIndex, bitbucketIndex, githubIndex;
      var bySlack, byName := slackIndex, nameIndex;
      if d.email != "" {
        entry := entry.(email := d.email);
        if d.email != "bot" {
          byEmail := byEmail[d.email := i];
        }
      }
      if d.realName != "" {
        entry := entry.(realName := d.realName);
        byName := byName[d.realName := i];
      }
      if d.bitbucketID != "" {
        entry := entry.(bitbucketID := d.bitbucketID);
        byBitbucket := byBitbucket[d.bitbucketID := i];
      }
      if d.githubID != "" {
        entry := entry.(githubID := d.githubID);
        byGitHub := byGitHub[d.githubID := i];
      }
      if d.slackID != "" {
        entry := entry.(slackID := d.slackID);
        bySlack := bySlack[d.slackID := i];
      }
      if d.thrippyLink != "" {
        entry := entry.(thrippyLink := if d.thrippyLink == "X" then "" else d.thrippyLink); // "X" means "opt out".
      }
      entries := entries[i := entry];
      emailIndex, bitbucketIndex, githubIndex, slackIndex, nameIndex := byEmail, byBitbucket, byGitHub, bySlack, byName;
    }

    /** Inserts or updates an entry. A rejected upsert changes nothing. */
    method UpsertUser(d: Details, now: int) returns (user: User, ok: bool)
      requires Valid(View())
      modifies this
      ensures View() == AfterUpsert(old(View()), d, now) && Valid(View()) && Keeps(old(View()), View())
      ensures ok <==> Find(old(View()), d).Found?
      ensures !ok ==> View() == old(View())
      ensures ok ==> user in entries && forall k :: Given(d, k) != "" ==> Id(user, k) == Given(d, k)
    {
      UpsertKeepsValid(View(), d, now);
      var r := FindUserIndex(d);
      if r.Conflict? {
        return NO_USER, false;
      }
      FoundInRange(View(), d);
      UpsertIndexes(View(), d, now, if r.index < 0 then |entries| else r.index);
      user := UpsertEntry(r.index, d, now);
      return user, true;
    }

    /** Appends a blank entry if there is none yet, and stores the details. */
    method UpsertEntry(index: int, d: Details, now: int) returns (user: User)
      requires InRange(View()) && Find(View(), d) == Found(index) && -1 <= index < |entries|
      modifies this
      ensures View() == AfterUpsert(old(View()), d, now)
      ensures var i := if index < 0 then |old(entries)| else index; i < |entries| && user == entries[i]
    {
      var i := index;
      if i == -1 {
        i := |entries|;
        entries := entries + [NO_USER.(created := now)];
      }
      StoreDetails(i, d, now);
      return entries[i];
    }

    method FollowUser(follower: string, followed: string, now: int) returns (user: User)
      requires Valid(View())
      modifies `entries
      ensures View() == AfterFollow(old(View()), follower, followed, now) && Valid(View())
      ensures followed in slackIndex ==> user == entries[slackIndex[followed]] && follower in user.followers
      ensures followed !in slackIndex ==> user == NO_USER
    {
      StepKeepsValid(View(), Follow(follower, followed), now);
      FindBySlackID(View(), followed);
      var r := FindUserIndex(OnlySlackID(followed));
      if r.Conflict? || r.index < 0 {
        return NO_USER;
      }
      AddFollower(r.index, follower, now);
      return entries[r.index];
    }

    /** Adds a follower to an entry, unless they follow it already. */
    method AddFollower(i: nat, follower: string, now: int)
      requires i < |entries| && StrictlySorted(entries[i].followers)
      modifies `entries
      ensures View() == if follower in old(entries)[i].followers then old(View())
                        else WithFollowers(old(View()), i, Sort(old(entries)[i].followers + [follower]), now)
      ensures i < |entries| && follower in entries[i].followers
    {
      if follower !in entries[i].followers {
        SortedWithNewcomer(entries[i].followers, follower);
        entries := entries[i := entries[i].(updated := now)];
        entries := entries[i := entries[i].(followers := Sort(entries[i].followers + [follower]))];
      }
    }

    method UnfollowUser(follower: string, followed: string, now: int) returns (done: bool)
      requires InRange(View())
      modifies `entries
      ensures View() == AfterUnfollow(old(View()), follower, followed, now)
      ensures done <==> followed in slackIndex && follower in old(entries)[slackIndex[followed]].followers
    {
      FindBySlackID(View(), followed);
      var r := FindUserIndex(OnlySlackID(followed));
      if r.Conflict? || r.index < 0 {
        return false;
      }
      var i := r.index;
      if follower !in entries[i].followers {
        return false;
      }
      entries := entries[i := entries[i].(followers := Without(entries[i].followers, follower))];
      entries := entries[i := entries[i].(updated := now)];
      return true;
    }

    /** Takes a follower off every entry's list, by way of the Slack ID of each entry that has them. */
    method RemoveFollower(follower: string, now: int)
      requires Valid(View())
      modifies `entries
      ensures View() == AfterRemoveFollower(old(View()), follower, now) && Valid(View())
      ensures forall i :: 0 <= i < |entries| ==> follower !in entries[i].followers
    {
      ghost var before := View();
      ghost var target := AfterRemoveFollower(before, follower, now).entries;
      StepKeepsValid(before, Change.RemoveFollower(follower), now);
      for i := 0 to |entries|
        invariant RemovedFirst(before, follower, now, i, View())
      {
        RemoveFollowerFrom(before, i, follower, now);
      }
      assert entries == target;
      RemovedFromEveryList(before, follower, now);
    }

    /** The body of the loop over all entries. */
    method RemoveFollowerFrom(ghost before: DB, i: nat, follower: string, now: int)
      requires Valid(before) && i < |before.entries| && RemovedFirst(before, follower, now, i, View())
      modifies `entries
      ensures RemovedFirst(before, follower, now, i + 1, View())
    {
      var user := entries[i];
      if follower in user.followers {
        assert Holds(before.entries, i, Slack, user.slackID);
        assert IndexOf(before, Slack)[user.slackID] == i;
        var _ := UnfollowUser(follower, user.slackID, now);
      }
    }

    method SelectUser(indexType: int, id: string) returns (r: Selection)
      requires InRange(View())
      ensures r.InvalidIndexType? <==> !(INDEX_BY_EMAIL <= indexType <= INDEX_BY_REAL_NAME)
      ensures r.Selected? ==> var index := IndexOfType(View(), indexType);
                              r.user == if id in index && index[id] != NON_UNIQUE then entries[index[id]] else NO_USER
      ensures Valid(View()) ==>
                forall i, k :: Holds(entries, i, k, id) && indexType == TypeOfKind(k) ==> r == Selected(entries[i])
      ensures IsRebuild(entries, View()) ==>
                && (forall k :: indexType == TypeOfKind(k) && !HeldBy(entries, k, id) ==> r == Selected(NO_USER))
                && (indexType == INDEX_BY_REAL_NAME ==>
                      forall i :: HasName(entries, i, id) && (forall j :: HasName(entries, j, id) ==> j == i) ==>
                                    r == Selected(entries[i]))
                && (indexType == INDEX_BY_REAL_NAME && !HasOneHolder(entries, id) ==> r == Selected(NO_USER))
    {
      var index;
      match indexType {
        case 1 => index := emailIndex;
        case 2 => index := bitbucketIndex;
        case 3 => index := githubIndex;
        case 4 => index := slackIndex;
        case 5 => index := nameIndex;
        case _ => return InvalidIndexType;
      }
      assert index == IndexOfType(View(), indexType);
      assert forall k :: IndexOfType(View(), TypeOfKind(k)) == IndexOf(View(), k);
      if id !in index || index[id] < 0 {
        return Selected(NO_USER);
      }
      return Selected(entries[index[id]]);
    }
  }

  /** Saving the entries and reading them back loses no unique ID in use, and keeps the database valid. */
  method SaveAndReload(db: UsersDB) returns (again: UsersDB)
    requires Valid(db.View()) && AllLowerCase(db.entries)
    ensures Valid(again.View()) && again.entries == db.entries
    ensures forall i, k, id :: Holds(db.entries, i, k, id) ==>
                                 id in IndexOf(again.View(), k) && IndexOf(again.View(), k)[id] == i
  {
    assert AllNormalized(db.entries) == db.entries;
    again := new UsersDB.ReadUsersFile(db.entries);
    LowerCaseBots(db.entries);
    RebuildAgrees(db.View(), again.View());
  }

  lemma LowerCaseBots(entries: seq<User>)
    requires AllLowerCase(entries)
    ensures BotsAreLowerCase(entries)
  {
  }
}

# RevChat, verified

A Dafny model of the stateful parts of RevChat (a service that mirrors pull requests in Slack channels), with
proofs of what they promise over whole runs. `dafny verify dfyconfig.toml` checks all of it.

- `GroupGraph`, `GroupExpansion`, `GroupVisits`, `FileExpansion`, `ExpansionOrder`, `Approvals`, `OwnersFile`,
  `CodeOwners`: the CODEOWNERS engine. Groups are a graph, and a name stands for the users that chains of group
  memberships lead to. The memoised expansion, which overwrites the map that it recurses over, the reversed list of
  patterns and the recursive approval check are all proved against that; so is how far an expansion gets before it fails.
- `Explain`: the work-list of nested groups behind `/revchat explain`.
- `Turns`: whose turn it is in a pull request, with the slash commands on top.
- `Users`, `UserDatabase`: the user database with its five indexes, first as values and then updated in place.
- `CommentPolling`: noticing comment edits that Bitbucket does not report, as a timed protocol.
- `Maintenance`: the clean-up command that is cut and restarted by continue-as-new.
- `SignalDrain`: draining all signal channels before the dispatcher is reset.
- `UrlIdMap`: the two-way map of URLs and Slack IDs with cascading delete.
- `Cache`, `FileMutexes`: the expiring cache, and the table of mutexes kept in it.
- `Reminders`: splitting reminders into messages.
- `Ordering`: string order, `slices.Sort` and `slices.Compact`.

Classes have the source's fields and update them in place; their methods are proved against functions on values, and the
theorems are about those functions and about runs of them. Clock readings, the order of iteration over a map where it
matters, the host's continue-as-new suggestions and arrivals of signals are parameters.

## What the proofs brought to light

The model follows the code in each of these cases.

- A comment in `allApproved` (pkg/files/code_owners.go:269) says that one member of each owning group is enough. But
  `GotAllRequiredApprovals` flattens groups first, and then asks for every single member: `FlattenedNeedsEveryUser`,
  `OneOfTwoIsNotEnough`. `FlatteningAgreesExactly` says when it makes no difference.
- The polling window is meant to cover all silent edits (docs/setup/bitbucket.md:75). It does not cover comments created
  in Slack (`SlackCommentsAreNotPolled`), nor edits after one in Slack, even while polled (`SlackEditIsNotPolled`,
  `BackToPolledTextIsMissed`), nor those after an edit that was undone before the next tick: Bitbucket's ten minutes start
  over, the schedule does not (`RevertHidesLaterEdit`). Edits that Bitbucket does report are ignored if they leave
  RevChat's mark in the text (`MarkHidesReportedEdit`). By `OnlyTheseLeaveGaps` nothing else causes a gap for silent
  edits; `EditIsMissedExactly` and `NextEditCanBeMissedExactly` say which edits are missed, and when the next one can be.
- `getDataFileMutex` can return, and then keep returning, a nil mutex: `ExpiryInBetweenYieldsNil`, and `NilExactly` for
  when it does.
- The clean-up command silently does nothing after a restart if its cursor is no longer listed
  (`UncutPassNeedsItsCursor`), and repeats items whenever it is cut while skipping (`CutWhileSkippingRepeats`), but only
  then (`EachExactlyOnceInOrder`).
- A known email address with a name that two users share is rejected as a conflict, although nothing conflicts:
  the last clause of `ConflictExactly`, which `AmbiguousNameAlone` shows to matter.
- `expandGroups` is documented as idempotent, and its order of iteration as irrelevant. Both hold when it succeeds. When
  it fails, the users noted and the groups overwritten so far depend on the order (`OrderDecidesUsers`), and with them
  whether `CountOwnedFiles` counts anything (`OrderDecidesCount`). `FailureIgnoresOrderExactly`,
  `FailureIsIdempotentExactly` and `CountIgnoresOrderExactly` say for which files it makes no difference.
- Deleting a GitHub pull request's mappings by its URL leaves those of comments whose links only add a fragment to it:
  `FragmentsOutliveURL`; `DelFromEitherSideExactly` says when it is the same as deleting by channel.
- Chunks of reminders are limited to 4000 characters, not bytes: the tips have 325 characters but 333 bytes.

## Model

| member | source | states |
|---|---|---|
| `OwnersFile.NormalizePatternMeans` | pkg/files/code_owners.go:181-198 | A normalized pattern is the pattern between an anchor (only if it had none) and a tail that depends on how the anchored pattern ends |
| `OwnersFile.NormalizedMatchesFiles` | pkg/files/code_owners.go:186-195 | No normalized pattern names just a directory or a tree; it goes on to the files in them |
| `OwnersFile.NormalizePatternIsIdempotent` | pkg/files/code_owners.go:181-198 | Normalizing twice is normalizing once |
| `OwnersFile.PathsAreAnchored` | pkg/files/code_owners.go:285-287 | Paths are matched from the root, and with or without the leading slash they are the same path |
| `OwnersFile.LastIndexExactly` | pkg/files/code_owners.go:143 | The index found is exactly the one that has the property with no later one that does. Instantiated with "this line decides the path", this is "last match wins" |
| `OwnersFile.FirstOfReversedIsLast` | pkg/files/code_owners.go:284-302 | The first deciding pattern of the reversed list is the pattern of the last deciding line of the file, for any matcher and ignore list |
| `OwnersFile.SearchFindsLastLine` | pkg/files/code_owners.go:284-302 | With any table that has the file's patterns, the search yields the owners (or the malformed pattern) of the last line that decides, with members of equal patterns pooled and ignored paths unowned |
| `OwnersFile.SearchMeans` | pkg/files/code_owners.go:290-299 | Told from the matcher and the two lists alone: the search ends at the first pattern that is malformed, or matches a path that no ignore pattern matches |
| `OwnersFile.IgnoredPathsAreUnowned` | pkg/files/code_owners.go:294 | A path that matches what follows "!" in some line has no owners, unless a path pattern is malformed |
| `OwnersFile.UnmatchedPathsAreUnowned` | pkg/files/code_owners.go:301 | A path that matches no line has no owners |
| `OwnersFile.LastMatchWins` | pkg/files/code_owners.go:143 | Otherwise the owners are those of the last line that matches, pooled with the others of its pattern |
| `OwnersFile.MalformedPatternIsReported` | pkg/files/code_owners.go:290-293 | An error exactly if a malformed pattern is met before any line that decides, from the last line on |
| `OwnersFile.OwnersArePooled` | pkg/files/code_owners.go:134-137 | Owners of equal patterns are concatenated in file order |
| `OwnersFile.MembersArePooled` | pkg/files/code_owners.go:138-139 | Members of equally named groups are concatenated in file order |
| `OwnersFile.PatternsInFile` | pkg/files/code_owners.go:131-136 | Which lines become path patterns and which become ignore patterns |
| `OwnersFile.GroupsInFile` | pkg/files/code_owners.go:138-139 | Groups are defined by exactly the lines that have a group name and no path pattern |
| `GroupExpansion.MemoKeepsUsers` | pkg/files/code_owners.go:245-247 | However many groups have been overwritten by their users, every name stands for the same users, by chains of any length |
| `GroupExpansion.MemoKeepsWellFormedness` | pkg/files/code_owners.go:230-247 | Overwriting neither hides nor creates an undefined or empty group below any name |
| `GroupExpansion.MemoKeepsAcyclic` | pkg/files/code_owners.go:245-247 | Overwriting creates no cycle |
| `GroupExpansion.MembersListGroup` | pkg/files/code_owners.go:236-247 | Expanding the current members of a group, overwritten or not, lists exactly its users, and shows it to be well-formed |
| `GroupExpansion.UsersExpandToThemselves` | pkg/files/code_owners.go:225-228 | A list of users is its own expansion |
| `CodeOwners.ParsedFile.constructor` | pkg/files/code_owners.go:118-143 | Parsing yields the reversed path patterns, the ignore patterns, and groups and paths with the members of equal names pooled in file order |
| `CodeOwners.ParsedFile.ExpandMember` | pkg/files/code_owners.go:224-250 | Succeeds exactly if all groups at or below the name are defined and non-empty; then it lists exactly the users reached, strictly sorted. Succeeding or failing, it notes exactly the users and makes flat exactly the complete groups that it comes across up to the first ill-formed member; all other groups stay |
| `CodeOwners.ParsedFile.ExpandMembers` | pkg/files/code_owners.go:236-246 | The same for a list of members, which both groups and path entries go through |
| `CodeOwners.ParsedFile.ExpandGroups` | pkg/files/code_owners.go:202-222 | For any order in which the map is walked: all paths end with exactly the users reachable from their members, strictly sorted, or (if some group in use is undefined or empty) no path changes; users and groups change exactly as far as that walk gets |
| `GroupVisits.WellFormedVisitAll` | pkg/files/code_owners.go:224-250 | In the absence of undefined and empty groups, expansion comes across everything reachable |
| `GroupVisits.VisitsGroup` | pkg/files/code_owners.go:230-243 | Expanding a group comes across just what expanding its members in order does, up to the first that fails |
| `GroupVisits.MemoKeepsNotes` | pkg/files/code_owners.go:245-247 | However many groups have been overwritten, expanding any names notes the same users, even if it fails |
| `FileExpansion.SuccessIgnoresOrder` | pkg/files/code_owners.go:205-221 | If expansion succeeds, the order in which the map is walked makes no difference to paths, groups or users |
| `FileExpansion.SameVisitsSameOutcome` | pkg/files/code_owners.go:202-250 | Whether it succeeds or fails, what expansion comes across along a walk determines the outcome |
| `FileExpansion.ExpansionIsIdempotent` | pkg/files/code_owners.go:200-202 | Expanding an expanded file, in any order, succeeds and changes neither paths, nor groups, nor users |
| `FileExpansion.FailedExpansionFailsAgain` | pkg/files/code_owners.go:208-211 | A failed expansion leaves the paths alone, and so does the next one, which adds just the users and flat groups that its walk would have added to the original file |
| `FileExpansion.FailedExpansionIsIdempotentExactly` | pkg/files/code_owners.go:200-211 | For two given walks: expanding again after a failure changes nothing if and only if the second walk comes across no further user or complete group; in particular if it is the same walk |
| `ExpansionOrder.FailureIsIdempotentExactly` | pkg/files/code_owners.go:200-211 | For a file on which expansion fails: expanding twice is expanding once, in whatever orders, if and only if each ill-formed entry, expanded alone, notes and completes all that any entry does (or that is done already) |
| `ExpansionOrder.FailureIgnoresOrderExactly` | pkg/files/code_owners.go:202-222 | On the same condition on the file, and no other, its failed expansion has one outcome for all orders |
| `ExpansionOrder.NoWalkAddsMoreExactly` | pkg/files/code_owners.go:205-221 | On the same condition no walk comes across anything that another one does not |
| `ExpansionOrder.FailedOutcomesAgreeExactly` | pkg/files/code_owners.go:205-221 | Two walks have the same outcome if and only if neither comes across anything that the other does not |
| `FileExpansion.VisitedAlong` | pkg/files/code_owners.go:205-221 | A user or group is come across along a walk exactly if an entry leads to it that no ill-formed entry precedes |
| `FileExpansion.SomeWalkNotesExactly` | pkg/files/code_owners.go:205-221 | Some order notes one of the names if and only if some path entry, expanded first, does |
| `FileExpansion.SomeWalkNotesNoneExactly` | pkg/files/code_owners.go:205-221 | In a file that cannot be expanded, some order notes none of the names if and only if some ill-formed entry, expanded first, notes none |
| `FileExpansion.OrderDecidesUsers` | pkg/files/code_owners.go:200-221 | A concrete file in which one order notes a user and the other nobody, so that expanding in one and then the other is not idempotent |
| `Approvals.NeedOneIsReachability` | pkg/files/code_owners.go:252-282 | Where groups are defined, need-one mode is true exactly if some user reachable from the owners approved |
| `Approvals.NeedOneUnfolds` | pkg/files/code_owners.go:259-281 | For any groups: need-one mode is true exactly if no listed group is undefined and some listed owner has an approver behind it; one undefined group voids its whole list |
| `Approvals.ApprovalIsMonotone` | pkg/files/code_owners.go:252-282 | More approvers never make either mode false |
| `Approvals.MemoKeepsNeedOne` | pkg/files/code_owners.go:224-282 | The need-one answer for any names is the same before, during and after memoised expansion, even in a malformed file |
| `Approvals.MemoKeepsApproval` | pkg/files/code_owners.go:224-282 | So is the need-all answer, fallback owners included |
| `Approvals.FlattenedNeedsEveryUser` | pkg/files/code_owners.go:252-281 | For a flattened list, need-all mode takes a fallback owner or every single user that the owners stand for |
| `Approvals.GroupedNeedsOneEach` | pkg/files/code_owners.go:252-281 | For a grouped list, need-all mode takes a fallback owner or one user of every owner |
| `Approvals.FlattenedImpliesGrouped` | pkg/files/code_owners.go:224-282 | Approval of the flattened list implies approval of the grouped one |
| `Approvals.FlatteningAgreesExactly` | pkg/files/code_owners.go:252-282 | Flattening leaves every decision as it was if and only if, for each user involved, some owner stands for nobody else, fallback owners aside |
| `Approvals.OneOfTwoIsNotEnough` | pkg/files/code_owners.go:67-90 | A concrete group of two with one approver: approved as a group, not approved once flattened |
| `CodeOwners.ParsedFile.AllApproved` | pkg/files/code_owners.go:252-282 | Decides exactly these notions of approval, fallback owners included, for any acyclic groups |
| `CodeOwners.ParsedFile.IgnorePath` | pkg/files/code_owners.go:304-316 | True exactly if some well-formed ignore pattern matches |
| `CodeOwners.ParsedFile.GetOwners` | pkg/files/code_owners.go:284-302 | Yields the owners of the pattern at which the search ends, an error if that is malformed, or no owners; in particular none for an ignored path |
| `CodeOwners.LookupFindsOwners` | pkg/files/code_owners.go:284-302 | Looking a path up in the expanded file yields a strictly sorted listing of exactly the users behind the owners that the file names for it; in a file that cannot be expanded, those owners themselves |
| `CodeOwners.UnknownNamesOwnNothing` | pkg/files/code_owners.go:36-44 | A name that expansion never met owns no path: the early exit is sound |
| `CodeOwners.ParseCodeOwnersFile` | pkg/files/code_owners.go:118-148 | No result exactly for an empty file; with flattening, the file expanded as far as it can be |
| `CodeOwners.CountOwnedFiles` | pkg/files/code_owners.go:26-63 | Equals the count of paths whose last deciding line reaches one of the names, or 0 if a pattern is malformed; if expansion fails it counts directly named owners only, and only if the walk came across one of the names |
| `CodeOwners.CountOwnedMeans` | pkg/files/code_owners.go:46-62 | The count is the number of positions in the list of paths whose path is owned |
| `CodeOwners.OwnedMeans` | pkg/files/code_owners.go:55-60 | A path is owned if an owner in the file is, or stands for, one of the names |
| `CodeOwners.ZeroIsPossibleExactly` | pkg/files/code_owners.go:36-44 | In a file that cannot be expanded, some order yields 0 if and only if nothing is to be counted or an ill-formed entry, expanded first, notes none of the names |
| `CodeOwners.CountIsPossibleExactly` | pkg/files/code_owners.go:36-44 | In such a file, some order yields the count of directly named owners if and only if some entry, expanded first, notes one of the names |
| `CodeOwners.CountIgnoresOrderExactly` | pkg/files/code_owners.go:26-63 | All orders yield the same count if and only if the file can be expanded, or nothing is to be counted, or all ill-formed entries note a name, or no entry does |
| `CodeOwners.OrderDecidesCount` | pkg/files/code_owners.go:36-44 | A concrete file and question with a count of 1 in one order and 0 in the other |
| `CodeOwners.GotAllRequiredApprovals` | pkg/files/code_owners.go:67-90 | True exactly if there are paths and a file, and every single path is approved |
| `CodeOwners.PathApprovedMeans` | pkg/files/code_owners.go:77-87 | A path is approved if it meets no malformed pattern, and a fallback owner has approved or every single user behind its owners has (if expansion fails: one user of each owner) |
| `Explain.NestedGroups` | pkg/slack/commands/explain.go:75-101 | Ends with exactly the groups reachable in one step or more from the groups that own the file, each once, and terminates even on cyclic definitions |
| `Explain.ClosedHoldsReachable` | pkg/slack/commands/explain.go:93-101 | A list closed under group membership holds every group reachable from any of its elements |
| `Turns.PairsAreIsolated` | pkg/data/internal/turns.go:61-172 | Over any run, a reviewer's tracking and turn are what a three-state automaton makes of only the events of that reviewer, the author's turn switches, and freezing; nobody else's events matter |
| `Turns.PairFollowsStep` | pkg/data/internal/turns.go:61-172 | The same for one event from any state |
| `Turns.ApprovedStaysUntracked` | pkg/data/internal/turns.go:88-90 | After approving, a reviewer stays untracked through any run in which they are not added again, and a nudge is answered with "approved already" |
| `Turns.RunsStayValid` | pkg/data/internal/turns.go:61-172 | Every run keeps all tracked reviewers real (neither empty nor a bot) and approval times non-zero, and never changes the author |
| `Turns.BotsAreNeverTracked` | pkg/data/turns.go:113-117 | Over any run from the start, neither bots nor missing addresses are tracked or approve |
| `Turns.SomeoneHasTurn` | pkg/data/internal/turns.go:174-207 | With a real author, it is always someone's turn, and only the author's or a tracked reviewer's |
| `Turns.FrozenSwitches` | pkg/data/internal/turns.go:116-135 | While frozen, an unforced switch changes nothing but the activity, and a forced one acts as if not frozen |
| `Turns.FreezeIsKept` | pkg/data/internal/turns.go:342-364 | Who froze the turns, and when, survives any run without an unfreeze, further freezes included |
| `Turns.FreezeIsRecorded` | pkg/data/internal/turns.go:342-364 | Over any run, the record says who and when of the freeze that took effect since the last unfreeze |
| `Turns.FrozenOnlyByFreeze` | pkg/data/internal/turns.go:342-390 | Turns are frozen only by such a freeze, unless they were at first and nobody unfroze them |
| `Turns.SwitchHandsOver` | pkg/data/internal/turns.go:116-135 | A switch that takes effect gives the turn to all other reviewers, or to the author, takes it from whoever switches, and leaves it with all others |
| `Turns.AuthorFollowsStep` | pkg/data/internal/turns.go:61-172 | The author is tracked only by being nudged while someone is tracked, and no more after switching or being removed; nothing else matters |
| `Turns.AuthorIsTrackedByNudgeOnly` | pkg/data/internal/turns.go:81-87 | Over any run, an author who is tracked was nudged |
| `Turns.LastApprovalIsRecorded` | pkg/data/internal/turns.go:157-165 | Over any run, a user's approval record is the time at which they last approved while tracked |
| `Turns.NothingElseIsRecorded` | pkg/data/internal/turns.go:157-165 | Without that the record stays: being removed for another reason is no approval |
| `Turns.NudgeAnswersExactly` | pkg/data/internal/turns.go:78-95 | After any run a nudge is allowed exactly for the author and tracked reviewers, and others are told that they approved exactly if they did |
| `Turns.ActivityIsLastActive` | pkg/data/internal/turns.go:316-337 | After any run the activity record of each user is exactly the time of their last turn switch, effective removal or other activity |
| `Turns.PRTurns.SetReviewerTurn` | pkg/data/internal/turns.go:61-105 | Adds or nudges by these rules, and answers a nudge with whether it is allowed and whether the user had approved |
| `Turns.PRTurns.SwitchTurn` | pkg/data/internal/turns.go:112-142 | The author hands the turn to all tracked reviewers and leaves the list; a reviewer hands it to the author; frozen turns only move by force |
| `Turns.PRTurns.RemoveReviewerFromTurns` | pkg/data/internal/turns.go:146-172 | Untracks a tracked reviewer, recording an approval only if it is one; otherwise changes nothing |
| `Turns.PRTurns.UpdateActivityTime` | pkg/data/internal/turns.go:320-337 | Records activity of a real user and nothing else |
| `Turns.PRTurns.FreezeTurns` | pkg/data/internal/turns.go:342-364 | Freezes unless frozen already, and says which |
| `Turns.PRTurns.UnfreezeTurns` | pkg/data/internal/turns.go:368-390 | Undoes a freeze, and says whether there was one |
| `Turns.PRTurns.ReadCurrentTurnEmails` | pkg/data/internal/turns.go:178-207 | The strictly sorted list of exactly the users whose turn it is |
| `Turns.PRTurns.MyTurn` | pkg/slack/commands/turns.go:38-74 | Afterwards it is the caller's turn, and at most the caller's own flag has changed |
| `Turns.PRTurns.NotMyTurn` | pkg/slack/commands/turns.go:76-104 | Afterwards it is not the caller's turn, unless they are the author and no other reviewer is tracked |
| `Turns.PRTurns.FreezeCommand` | pkg/slack/commands/turns.go:106-126 | Freezes the turns (still frozen if they were), and takes the turn where a nudge is allowed |
| `Users.RunsFromFileKeepIds` | pkg/data/internal/users.go:74-223 | From any file with unique IDs on, over any run of upserts and follow changes: each indexable ID held by an entry is indexed to that entry, no two entries share one, and an ID that once resolves to an entry always resolves to that entry |
| `Users.RebuildIsValidExactly` | pkg/data/internal/users.go:320-348 | A database just read is valid if and only if no two entries of the file hold the same ID and its follower lists are sorted lists of entries with a Slack ID |
| `Users.RunsKeepIds` | pkg/data/internal/users.go:74-223 | The same from any valid database on |
| `Users.StepKeepsValid` | pkg/data/internal/users.go:74-223 | The same for any single change of a valid database |
| `Users.UpsertMeans` | pkg/data/internal/users.go:74-128 | Field by field: an accepted upsert stores what is given and keeps the rest; a link is kept, withdrawn by "X" or stored; followers and creation time stay, and so do all other entries and names |
| `Users.LinksAreKept` | pkg/data/internal/users.go:119-124 | Over any run, the Thrippy link of an entry changes only by an upsert of that entry that gives one |
| `Users.FollowMeans` | pkg/data/internal/users.go:130-157 | Exactly one list gains the follower, and nothing else changes but that entry's update time |
| `Users.UnfollowMeans` | pkg/data/internal/users.go:159-198 | Exactly one list loses the follower, and nothing else changes but that entry's update time |
| `Users.HoldsMeans` | pkg/data/internal/users.go:24-26 | Which field holds which kind of ID; the address of bots is no ID |
| `Users.HeldIdsAreUnique` | pkg/data/internal/users.go:24-26 | No two entries of a valid database hold the same email address, Bitbucket, GitHub or Slack ID |
| `Users.ConflictExactly` | pkg/data/internal/users.go:225-262 | Details are rejected exactly if two known IDs, or a known ID and a unique name, belong to different entries, or the email address is known and the name is marked as non-unique |
| `Users.AmbiguousNameAlone` | pkg/data/internal/users.go:225-262 | A concrete valid database and details rejected only because two users share the name, although the email address is that of one of them |
| `Users.FoundAgreesWithIndexes` | pkg/data/internal/users.go:225-262 | The entry found is the one to which every known unique ID among the details is indexed |
| `Users.FoundMeans` | pkg/data/internal/users.go:225-262 | Without any known unique ID, the entry found is that of the name, if it is indexed, or none |
| `Users.RebuildAgrees` | pkg/data/internal/users.go:320-348 | Rebuilt indexes resolve every ID they know to the same entry as the live ones, forget exactly the IDs that no entry holds any more, and mark a name exactly if two or more entries have it |
| `Users.ToLowerMeans` | pkg/data/internal/users.go:329 | Lower-casing replaces each capital letter by the small one, and nothing else |
| `Users.RemovedFromEveryList` | pkg/data/internal/users.go:200-223 | Removing a follower leaves them in nobody's list and everybody else in theirs, and updates just the entries that had them |
| `Users.SortedWithNewcomer` | pkg/data/internal/users.go:145-149 | Appending a new follower and sorting keeps a follower list strictly sorted |
| `UserDatabase.UsersDB.ReadUsersFile` | pkg/data/internal/users.go:316-351 | Lower-cases the email addresses and builds exactly those indexes, each ID pointing to its last holder; the result is valid exactly if IDs are unique |
| `UserDatabase.EmailIndexIsRebuiltExactly` | pkg/data/internal/users.go:327-331 | The email index maps exactly the lower-cased addresses to their last holders, which are the addresses in memory if and only if bots are spelled in lower case in the file |
| `UserDatabase.UsersDB.FindUserIndex` | pkg/data/internal/users.go:225-262 | Decides by the chain of five look-ups whose outcome `ConflictExactly` and `FoundAgreesWithIndexes` characterise |
| `UserDatabase.UsersDB.UpsertUser` | pkg/data/internal/users.go:74-128 | Accepted exactly if there is no conflict; then the entry holds all given IDs and every ID known before still resolves as before; a rejected upsert changes nothing |
| `UserDatabase.UsersDB.FollowUser` | pkg/data/internal/users.go:130-157 | The followed entry has the follower, once, in a sorted list; an unknown Slack ID changes nothing |
| `UserDatabase.UsersDB.UnfollowUser` | pkg/data/internal/users.go:159-198 | Removes the follower from the entry of that Slack ID, if both are there |
| `UserDatabase.UsersDB.RemoveFollower` | pkg/data/internal/users.go:200-223 | Leaves the follower in no entry's list and changes nothing else but the update times of the entries that had it |
| `UserDatabase.UsersDB.SelectUser` | pkg/data/internal/users.go:264-296 | Asking for a unique ID by the number of its kind yields its holder; in a database just read, no user for an ID that nobody holds, and for a name its holder if there is exactly one; an error for an invalid index type |
| `UserDatabase.SaveAndReload` | pkg/data/internal/users.go:298-369 | Saving the entries and reading them back keeps every held ID pointing to its entry, in a valid database |
| `CommentPolling.NoSilentEditIsMissed` | pkg/bitbucket/workflows/comment.go:26-328 | In any run, as long as nothing leaves a gap since polling last (re)started: with no news pending, Slack shows the text, or the edits that no tick has looked at (or the schedule) are at most 23 s old and a tick is to come |
| `CommentPolling.OnlyTheseLeaveGaps` | pkg/bitbucket/workflows/comment.go:26-328 | If the next silent edit can be missed, then a comment created in Slack has never been polled, or since the last restart a tick saw a revert or an edit in Slack (or one with RevChat's mark) came with no tick to come, or a tick has yet to look |
| `CommentPolling.EditIsMissedExactly` | pkg/bitbucket/workflows/comment.go:89-94 | An edit of an up-to-date comment is never shown, whatever the program does, if and only if it changes the text, is silent or ends with RevChat's mark, and no tick is to come or the text is back to the polled one |
| `CommentPolling.NextEditCanBeMissedExactly` | pkg/bitbucket/workflows/comment.go:198-261 | From any up-to-date state, polled or not: after the program's own steps, a silent edit that is missed is possible if and only if the earliest gap is within 600 s of the last update; it is now, or the last multiple of 19 s before the end of a schedule that polls for changes of the current text |
| `CommentPolling.NoGapAfterRestart` | pkg/bitbucket/workflows/comment.go:254-261 | A schedule for the current text that began no earlier than the last update always outlasts the ten minutes |
| `CommentPolling.RestartCovers` | pkg/bitbucket/workflows/comment.go:237-328 | Handling news, or a tick that finds a change, closes any gap |
| `CommentPolling.SlackCommentsAreNotPolled` | pkg/bitbucket/workflows/comment.go:41-46 | Any silent edit, in the ten minutes after, of any comment created in Slack is missed |
| `CommentPolling.SlackEditIsNotPolled` | pkg/bitbucket/workflows/comment.go:89-94 | A concrete run: polled to the end without a gap, then edited in Slack, then silently in Bitbucket, which is missed |
| `CommentPolling.BackToPolledTextIsMissed` | pkg/bitbucket/workflows/comment.go:321-327 | A concrete run: edited in Slack while polled, and silently back in Bitbucket, which is missed although ticks go on |
| `CommentPolling.MarkHidesReportedEdit` | pkg/bitbucket/workflows/comment.go:89-94 | A concrete run: an edit that Bitbucket reports is missed, because it leaves RevChat's mark in the text |
| `CommentPolling.RevertHidesLaterEdit` | pkg/bitbucket/workflows/comment.go:321-327 | A concrete run: edited and edited back before a tick, which therefore does not restart the schedule; an edit ten minutes later is never seen |
| `CommentPolling.EarlyRevertLeavesNoGap` | pkg/bitbucket/workflows/comment.go:321-327 | A concrete run in which a tick sees a revert, and still no edit can be missed |
| `CommentPolling.LookedAtInTimeWhileAlive` | pkg/bitbucket/workflows/comment.go:198-204 | In every run: while a tick is to come, no edit waits longer than an interval and the jitter to be looked at |
| `CommentPolling.TicksCanFire` | pkg/bitbucket/workflows/comment.go:254-263 | No reachable state is stuck: a tick that is due can fire in time, and then Slack shows a text that is not the polled one |
| `CommentPolling.InvIsKept` | pkg/bitbucket/workflows/comment.go:26-328 | Every possible edit in Bitbucket or Slack, notice (in any order) and tick keeps the invariant, every restart of the schedule included |
| `CommentPolling.CommentMirror.CommentCreated` | pkg/bitbucket/workflows/comment.go:41-68 | Posts and polls a new comment, unless RevChat created it |
| `CommentPolling.CommentMirror.CommentUpdated` | pkg/bitbucket/workflows/comment.go:89-97 | Updates the message and polls anew, unless RevChat made the edit |
| `CommentPolling.CommentMirror.SetSchedule` | pkg/bitbucket/workflows/comment.go:237-296 | The schedule starts over, with the new checksum and an end 619 s from now, whether it existed or not |
| `CommentPolling.CommentMirror.UpdateComment` | pkg/bitbucket/workflows/comment.go:99-137 | Slack shows the text, if it has a message for the comment, and polling starts over for it |
| `CommentPolling.CommentMirror.PollComment` | pkg/bitbucket/workflows/comment.go:310-328 | Stops polling a deleted comment, mirrors a changed one, and leaves an unchanged one alone |
| `Maintenance.NothingIsLeftUnprocessed` | pkg/slack/commands/maintenance.go:18-187 | However often the command is cut, if each cursor is still listed on restart and lists lose only processed items, everything listed at first is processed when it ends |
| `Maintenance.EachExactlyOnceInOrder` | pkg/slack/commands/maintenance.go:18-187 | If lists moreover lose only processed items, the log of all runs together is exactly the list of the first run, and free of duplicates, if and only if no cut falls while skipping |
| `Maintenance.PhasesAreOnePass` | pkg/slack/commands/maintenance.go:18-28 | The channel phase and the URL phase are one pass over both lists, cursor included |
| `Maintenance.BothListsAreSorted` | pkg/slack/commands/maintenance.go:30-130 | Channels followed by URLs form one strictly sorted list without slash commands |
| `Maintenance.PassCovers` | pkg/slack/commands/maintenance.go:163-187 | A pass processes all that lies between its cursor and the next one, wherever it is cut |
| `Maintenance.PassIsExact` | pkg/slack/commands/maintenance.go:163-187 | A pass not cut while skipping: what it does, followed by what it leaves to the next cursor, is what it had to do |
| `Maintenance.UncutPassNeedsItsCursor` | pkg/slack/commands/maintenance.go:169-180 | A restarted, uncut pass resumes at its cursor if that is still listed, and otherwise ends without processing anything |
| `Maintenance.CutWhileSkippingRepeats` | pkg/slack/commands/maintenance.go:164-180 | Every cut while skipping, in any history, makes some item be processed twice |
| `Maintenance.SecondCutRepeatsItem` | pkg/slack/commands/maintenance.go:164-180 | A concrete history of three runs with such a cut and a repeated item |
| `Maintenance.CleanCommand.ContinueAsNew` | pkg/slack/commands/maintenance.go:163-187 | Cuts, skips, stops skipping or goes on, and moves the cursor accordingly |
| `Maintenance.CleanCommand.CleanItems` | pkg/slack/commands/maintenance.go:41-110 | The loop (the one over URLs is alike) logs and leaves behind what the pass says |
| `Maintenance.CleanCommand.CleanPRData` | pkg/slack/commands/maintenance.go:18-28 | URLs follow channels unless the channel phase was cut |
| `SignalDrain.Dispatcher.PrepareForReset` | pkg/temporal/dispatcher.go:101-130 | Terminates under finitely many arrivals; then all 31 channels are empty together, and on each all arrivals were handled, in order |
| `SignalDrain.Dispatcher.DrainCycle` | pkg/temporal/dispatcher.go:132-139 | A cycle that finds nothing has seen all channels empty at once and changed nothing; one that finds something has handled at least one signal and lost none |
| `SignalDrain.Dispatcher.DrainSource` | pkg/bitbucket/workflows/temporal.go:197-258 | Drains a range of channels in order; reports signals exactly if it handled any |
| `SignalDrain.Dispatcher.DrainChannel` | pkg/slack/workflows/temporal.go:156-179 | Handles what is pending on a channel and what arrives on it meanwhile, until it is empty, and counts exactly |
| `SignalDrain.Dispatcher.ReceiveAsync` | pkg/github/workflows/temporal.go:135-158 | Handles the first pending signal of the channel, if any, while others arrive |
| `SignalDrain.BatchIsProgress` | pkg/temporal/dispatcher.go:111-117 | The arrival of any batch keeps handled followed by pending equal to arrived, in order, on every channel |
| `SignalDrain.ProgressTransitive` | pkg/temporal/dispatcher.go:113-117 | Steps compose without losing, reordering or un-handling a signal, and their counts add up |
| `SignalDrain.ProgressNeverLoses` | pkg/temporal/dispatcher.go:58-63 | The same over any number of steps |
| `UrlIdMap.SetKeepsInverseExactly` | pkg/data/internal/urls_ids.go:27-41 | Setting a pair keeps the map its own inverse if and only if neither side is paired with anything else yet |
| `UrlIdMap.RepairingBreaksInverse` | pkg/data/internal/urls_ids.go:37-38 | A concrete pair set over another one that leaves a dangling partner |
| `UrlIdMap.DelRemovesExactly` | pkg/data/internal/urls_ids.go:43-79 | In a self-inverse map a delete removes exactly the key, its partner, every path below the key and their partners, and the rest is self-inverse |
| `UrlIdMap.DelFromEitherSideExactly` | pkg/data/internal/urls_ids.go:64-76 | Deleting by either side of a pair gives the same map if and only if all other pairs are below both or below neither; then both trees are gone |
| `UrlIdMap.DelFromEitherSide` | pkg/data/internal/urls_ids.go:64-76 | In particular where URL nesting mirrors ID nesting |
| `UrlIdMap.FragmentsOutliveURL` | pkg/data/internal/urls_ids.go:64-69 | Any comment whose URL only adds a fragment, as in GitHub, outlives a delete by URL but not one by channel |
| `UrlIdMap.RunsStaySelfInverse` | pkg/data/internal/urls_ids.go:27-79 | Over any run of such sets and any deletes, the map is its own inverse |
| `UrlIdMap.GetAfterSet` | pkg/data/internal/urls_ids.go:14-41 | After setting a pair, each side is what is read for the other, other look-ups are as before, and looking a partner up leads back |
| `UrlIdMap.GetAfterDel` | pkg/data/internal/urls_ids.go:14-79 | After a delete, nothing is read for what was to go, and the same as before for all other keys |
| `UrlIdMap.URLsAndIDs.SetMapping` | pkg/data/internal/urls_ids.go:27-41 | Maps both ways |
| `UrlIdMap.URLsAndIDs.DelMapping` | pkg/data/internal/urls_ids.go:43-79 | The in-place deletions, during and after iteration, amount to the delete above, for any map |
| `Cache.CacheRefinesPlainMap` | internal/cache/cache.go:64-171 | Over any timed run, with sweeps (however late) at any moment, all answers are those of a plain map in which expired items do not exist |
| `Cache.CallRefines` | internal/cache/cache.go:86-171 | One call: the same answer, and again the same live items at any later time |
| `Cache.StoredValueExpires` | internal/cache/cache.go:110-118 | A value is gone exactly when its time to live, or the default one, is over; other durations mean never |
| `Cache.ReadAfterSet` | internal/cache/cache.go:123-131 | A value that was set is read until its time is over; no other key is affected |
| `Cache.ReadAfterAdd` | internal/cache/cache.go:136-149 | Adding is setting if nothing can be read under the key, and otherwise nothing, and says which |
| `Cache.ReadAfterReplace` | internal/cache/cache.go:154-171 | Replacing is setting if something can be read, whose time may be kept, and otherwise nothing, and says which |
| `Cache.ReadAfterOtherCalls` | internal/cache/cache.go:64-108 | What is deleted or cleared is gone; look-ups, listings and sweeps are not to be noticed |
| `Cache.ListedMeans` | internal/cache/extras.go:27-38 | Listings show exactly what can be read |
| `Cache.LiveLater` | internal/cache/cache.go:24-32 | Items that are gone at one time are gone at every later time |
| `Cache.Cache.constructor` | internal/cache/cache.go:43-58 | A new cache is empty; a non-positive default expiration means none |
| `Cache.Cache.Sweep` | internal/cache/cache.go:64-74 | Removes exactly the items that had expired by the tick |
| `Cache.Cache.GetItem` | internal/cache/cache.go:93-108 | The item if it has not expired; an expired one is deleted |
| `Cache.Cache.Get` | internal/cache/cache.go:86-89 | The value of that item |
| `Cache.Cache.Set` | internal/cache/cache.go:123-131 | Stores the value with its expiration |
| `Cache.Cache.Add` | internal/cache/cache.go:136-149 | Stores the value exactly if there is no unexpired one |
| `Cache.Cache.Replace` | internal/cache/cache.go:154-171 | Replaces the value exactly if there is an unexpired one, keeping its expiration if asked to |
| `Cache.Cache.Keys` | internal/cache/extras.go:13-24 | All unexpired keys, each once |
| `Cache.Cache.Items` | internal/cache/extras.go:27-38 | All unexpired items |
| `Cache.Cache.ItemCount` | internal/cache/extras.go:43-54 | The number of unexpired items |
| `Cache.Cache.Clear` | internal/cache/extras.go:4-9 | Drops all items, as the call that the refinement is about |
| `FileMutexes.NilIsReturnedExactly` | pkg/data/internal/files.go:32-39 | In a table without nil, a call returns nil if and only if the item expires between its first and second reading of the clock |
| `FileMutexes.NilIsReturnedAgainExactly` | pkg/data/internal/files.go:33-37 | A stored nil is returned again if and only if the next call begins within 24 hours |
| `FileMutexes.ItemStays` | pkg/data/internal/files.go:27-39 | Between two calls for a key its item stays as it is, or is swept after it expired |
| `FileMutexes.ConsecutiveCalls` | pkg/data/internal/files.go:27-39 | Of two consecutive calls for a key, the second returns the mutex of the first if that has not expired by its second step, a new one if it has by its first step, and nil in between, whatever sweeps and other calls come between |
| `FileMutexes.OneMutexPerKeyExactly` | pkg/data/internal/files.go:27-39 | After a call that got a mutex, all calls for the key return that mutex if and only if it never expires before the second step of the next call |
| `FileMutexes.OneMutexPerKey` | pkg/data/internal/files.go:27-39 | From the first call for a key on, while each comes within 24 hours of the one before, all return the same mutex, and never nil |
| `FileMutexes.NilExactly` | pkg/data/internal/files.go:32-39 | In any run, a call returns nil if and only if the mutex expired between the first two steps of that or an earlier call for the key, and no call since then came late enough to get a new one |
| `FileMutexes.ExpiryInBetweenYieldsNil` | pkg/data/internal/files.go:33-37 | A concrete run of three calls, of which the second and the third get nil |
| `FileMutexes.MutexTable.GetDataFileMutex` | pkg/data/internal/files.go:32-39 | The table and the result for any three clock readings of its steps, as used in these runs |
| `Reminders.MessagesKeepText` | pkg/slack/workflows/reminders.go:66-90 | All messages together are header, summaries and tips, in order |
| `Reminders.MessagesFitExactly` | pkg/slack/workflows/reminders.go:66-90 | No message exceeds 4000 characters if and only if each summary but the last has at most 4000, and the last at most 3675 |
| `Reminders.SplitOnlyWhenFull` | pkg/slack/workflows/reminders.go:73-82 | No message ends before the summary that begins the next one would have made it too long |
| `Reminders.ShortSummariesFit` | pkg/slack/workflows/reminders.go:73-82 | Summaries of at most 3675 bytes always fit |
| `Reminders.HeaderAndTipsAreAsRequired` | pkg/slack/workflows/reminders.go:67-88 | The tips take exactly the margin of 325 characters, and the header is short enough |
| `Reminders.SplitReminder` | pkg/slack/workflows/reminders.go:66-90 | The loop posts those messages, and none without summaries |

## Left out

- CodeOwners.ParsedFile.ExpandGroups: groups must not be cyclic below any path entry, because the source does not terminate on such files (unless it happens to fail before).
- CommentPolling.NoSilentEditIsMissed: needs runs in which nothing leaves a gap, because it can be false otherwise (see above); handlers are atomic and successful, an edit in Slack and its copy in Bitbucket are one step, checksums are collision-free, and schedules fire for every multiple of 19 s up to their end, with the jitter added afterwards.
- Maintenance.CleanCommand.CleanItems: one loop stands for the two of the source, which differ in how they check and clean an item; checks, messages, waiting and the counts of cleaned and failed items are not modelled.
- Cache.CacheRefinesPlainMap: calls are taken one at a time; `Item` releases its lock before deleting an expired item, so another call could come between.
- UserDatabase.UsersDB.ReadUsersFile: lower-casing is modelled for ASCII letters only.
- Loop bodies and middle parts of `readUsersFile`, `UpsertUser`, `RemoveFollower` and `expandGroups` are methods of their own here (`IndexEntry`, `StoreDetails`, `RemoveFollowerFrom`, `ExpandEntry`); `StoreDetails` assigns the fields once at the end.
- Splitting CODEOWNERS lines by regular expressions, and glob matching: the model starts from split lines and takes any matcher, which may report a malformed pattern.
- `OwnersPerPath`, and marking approvers in the explanation: plain compositions and message text.
- Email normalisation of turn files, and their recovery from pull-request snapshots: emails are lower-case, and runs start from a valid state.
- Reading and writing files, JSON and mutual exclusion: a record is read and written as a whole, one operation at a time.
- Deleting finished polling schedules (pkg/bitbucket/workflows/comment.go:369), and deleting a comment while edits are pending.
- `ReadAllURLsOrChannels`: the lists it yields are inputs of the clean-up model, as sorted lists without duplicates.
- Real names beyond what a rebuild says about them: an upsert overwrites the mark of a non-unique name, so no invariant relates live name indexes to entries.
- Markdown conversion, message wording, OAuth, configuration, reminders' times and all calls to Slack, Bitbucket, GitHub, Jira and Temporal.

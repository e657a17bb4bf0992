/** Whose turn is it? The attention state of one pull request, its operations, and theorems over whole runs. */
module Turns {
  import opened Ordering

  // ----- The state and its transitions, on values

  /** Email addresses are lower-case already. Times are positive; an absent or zero time means "never". */
  datatype State = State(
    author: string,
    reviewers: map<string, bool>,   // Tracked reviewers: is it their turn?
    activity: map<string, int>,
    approvers: map<string, int>,
    frozenAt: int,
    frozenBy: string)

  datatype Event =
    | Add(email: string)
    | Nudge(email: string)
    | Switch(email: string, force: bool)
    | Remove(email: string, approved: bool)
    | Touch(email: string)          // Activity that doesn't change turns.
    | Freeze(email: string)
    | Unfreeze

  /** Neither missing nor a bot. Events of other users are ignored. */
  predicate Real(email: string) {
    email != "" && email != "bot"
  }

  function Initial(author: string): State {
    State(author, map[], map[], map[], 0, "")
  }

  predicate Frozen(s: State) {
    s.frozenAt != 0
  }

  function AfterSet(s: State, email: string, nudge: bool): State {
    if !Real(email) then s
    else if !nudge then
      if email == s.author || email in s.reviewers then s else s.(reviewers := s.reviewers[email := true])
    else if email == s.author then
      if s.reviewers == map[] || email in s.reviewers then s else s.(reviewers := s.reviewers[email := true])
    else
      if email in s.reviewers then s.(reviewers := s.reviewers[email := true]) else s
  }

  function EveryonesTurn(reviewers: map<string, bool>): map<string, bool> {
    map r | r in reviewers :: true
  }

  function AfterSwitch(s: State, email: string, force: bool, now: int): State {
    if !Real(email) then s
    else
      var t := s.(activity := s.activity[email := now]);
      if Frozen(s) && !force then t
      else if email == s.author then t.(reviewers := EveryonesTurn(s.reviewers - {email}))
      else if email in s.reviewers then t.(reviewers := s.reviewers[email := false])
      else t
  }

  function AfterRemove(s: State, email: string, approved: bool, now: int): State {
    if !Real(email) || email !in s.reviewers then s
    else s.(reviewers := s.reviewers - {email},
            activity := s.activity[email := now],
            approvers := if approved then s.approvers[email := now] else s.approvers)
  }

  function AfterFreeze(s: State, email: string, now: int): State {
    if !Real(email) || Frozen(s) then s else s.(frozenAt := now, frozenBy := email)
  }

  function AfterUnfreeze(s: State): State {
    if Frozen(s) then s.(frozenAt := 0, frozenBy := "") else s
  }

  function Step(s: State, e: Event, now: int): State {
    match e
    case Add(email) => AfterSet(s, email, false)
    case Nudge(email) => AfterSet(s, email, true)
    case Switch(email, force) => AfterSwitch(s, email, force, now)
    case Remove(email, approved) => AfterRemove(s, email, approved, now)
    case Touch(email) => if Real(email) then s.(activity := s.activity[email := now]) else s
    case Freeze(email) => AfterFreeze(s, email, now)
    case Unfreeze => AfterUnfreeze(s)
  }

  /** A run: events with the times at which they happen. */
  type Run = es: seq<(Event, int)> | forall e :: e in es ==> e.1 > 0

  function After(s: State, es: Run): State {
    if es == [] then s
    else
      var k := |es| - 1;
      Step(After(s, es[..k]), es[k].0, es[k].1)
  }

  /** Whether a nudge is allowed, and if not, whether that is because the user approved already. */
  function NudgeAnswer(s: State, email: string): (bool, bool) {
    if !Real(email) then (false, false)
    else if email == s.author || email in s.reviewers then (true, false)
    else (false, email in s.approvers && s.approvers[email] != 0)
  }

  // ----- Whose turn

  /** A user is on the current-turn list. */
  predicate HasTurn(s: State, email: string) {
    || (email in s.reviewers && s.reviewers[email])
    || (email == s.author && Real(email) && (s.reviewers == map[] || exists r :: r in s.reviewers && !s.reviewers[r]))
  }

  /** What every reachable state keeps. */
  ghost predicate Valid(s: State) {
    && (forall r :: r in s.reviewers ==> Real(r))
    && (forall a :: a in s.approvers ==> s.approvers[a] > 0)
    && s.frozenAt >= 0
  }

  lemma StepStaysValid(s: State, e: Event, now: int)
    requires Valid(s) && now > 0
    ensures Valid(Step(s, e, now)) && Step(s, e, now).author == s.author
  {
  }

  lemma {:induction false} RunsStayValid(s: State, es: Run)
    requires Valid(s)
    ensures Valid(After(s, es)) && After(s, es).author == s.author
  {
    if es != [] {
      var k := |es| - 1;
      assert es[k] in es;
      RunsStayValid(s, es[..k]);
      StepStaysValid(After(s, es[..k]), es[k].0, es[k].1);
    }
  }

  /** Neither bots nor nobody are ever tracked or approve. */
  lemma BotsAreNeverTracked(author: string, es: Run)
    ensures var t := After(Initial(author), es);
            "bot" !in t.reviewers && "" !in t.reviewers && "bot" !in t.approvers && "" !in t.approvers
  {
    RunsStayValid(Initial(author), es);
    NeverApproving(Initial(author), es, "bot");
    NeverApproving(Initial(author), es, "");
  }

  lemma {:induction false} NeverApproving(s: State, es: Run, user: string)
    requires Valid(s) && !Real(user) && user !in s.approvers
    ensures user !in After(s, es).approvers
  {
    if es != [] {
      NeverApproving(s, es[..|es| - 1], user);
    }
  }

  /** With a real author it is always someone's turn, and only the author's or a tracked reviewer's. */
  lemma SomeoneHasTurn(s: State)
    requires Real(s.author)
    ensures exists u :: HasTurn(s, u)
    ensures forall u :: HasTurn(s, u) ==> u == s.author || u in s.reviewers
  {
    if s.reviewers == map[] {
      assert HasTurn(s, s.author);
    } else {
      var r :| r in s.reviewers;
      assert HasTurn(s, r) || HasTurn(s, s.author);
    }
  }

  // ----- Every author-reviewer pair is isolated

  datatype Pair = Untracked | ReviewersTurn | AuthorsTurn

  /** All that a reviewer's part of the state depends on. */
  datatype PairState = PairState(pair: Pair, frozen: bool)

  datatype PairEvent = Added | Nudged | Removed | ReviewerActs(force: bool) | AuthorActs(force: bool) | Froze | Thawed

  function PairStep(p: PairState, e: PairEvent): PairState {
    match e
    case Added => if p.pair == Untracked then p.(pair := ReviewersTurn) else p
    case Nudged => if p.pair == Untracked then p else p.(pair := ReviewersTurn)
    case Removed => p.(pair := Untracked)
    case ReviewerActs(force) => if p.pair == Untracked || (p.frozen && !force) then p else p.(pair := AuthorsTurn)
    case AuthorActs(force) => if p.pair == Untracked || (p.frozen && !force) then p else p.(pair := ReviewersTurn)
    case Froze => p.(frozen := true)
    case Thawed => p.(frozen := false)
  }

  function PairAfter(p: PairState, es: seq<PairEvent>): PairState {
    if es == [] then p else PairStep(PairAfter(p, es[..|es| - 1]), es[|es| - 1])
  }

  function PairOf(s: State, reviewer: string): PairState {
    PairState(if reviewer !in s.reviewers then Untracked
              else if s.reviewers[reviewer] then ReviewersTurn else AuthorsTurn, Frozen(s))
  }

  /** The events that concern a reviewer: their own, turn switches by the author (unless a bot), and freezing. */
  function Concerning(e: Event, reviewer: string, author: string): seq<PairEvent> {
    match e
    case Add(email) => if email == reviewer then [Added] else []
    case Nudge(email) => if email == reviewer then [Nudged] else []
    case Remove(email, _) => if email == reviewer then [Removed] else []
    case Switch(email, force) =>
      if email == reviewer then [ReviewerActs(force)]
      else if email == author && Real(author) then [AuthorActs(force)]
      else []
    case Touch(_) => []
    case Freeze(email) => if Real(email) then [Froze] else []
    case Unfreeze => [Thawed]
  }

  function AllConcerning(es: seq<(Event, int)>, reviewer: string, author: string): seq<PairEvent> {
    if es == [] then []
    else
      var k := |es| - 1;
      AllConcerning(es[..k], reviewer, author) + Concerning(es[k].0, reviewer, author)
  }

  lemma PairFollowsStep(s: State, e: Event, now: int, reviewer: string)
    requires Real(reviewer) && reviewer != s.author && now > 0
    ensures PairOf(Step(s, e, now), reviewer) == PairAfter(PairOf(s, reviewer), Concerning(e, reviewer, s.author))
  {
    var c := Concerning(e, reviewer, s.author);
    if c != [] {
      assert c[..0] == [];
      assert PairAfter(PairOf(s, reviewer), c) == PairStep(PairOf(s, reviewer), c[0]);
    }
  }

  lemma {:induction false} PairAfterConcat(p: PairState, a: seq<PairEvent>, b: seq<PairEvent>)
    ensures PairAfter(p, a + b) == PairAfter(PairAfter(p, a), b)
  {
    if b == [] {
      assert a + b == a;
    } else {
      var k := |b| - 1;
      assert (a + b)[..|a + b| - 1] == a + b[..k];
      PairAfterConcat(p, a, b[..k]);
    }
  }

  /**
   * Over any run, whether a reviewer is tracked and whose turn it is between them and the author
   * is what a three-state automaton makes of the events that concern the reviewer. No other event matters.
   */
  lemma {:induction false} PairsAreIsolated(s: State, es: Run, reviewer: string)
    requires Valid(s) && Real(reviewer) && reviewer != s.author
    ensures PairOf(After(s, es), reviewer) == PairAfter(PairOf(s, reviewer), AllConcerning(es, reviewer, s.author))
  {
    if es != [] {
      var k := |es| - 1;
      assert es[k] in es;
      PairsAreIsolated(s, es[..k], reviewer);
      RunsStayValid(s, es[..k]);
      PairFollowsStep(After(s, es[..k]), es[k].0, es[k].1, reviewer);
      PairAfterConcat(PairOf(s, reviewer), AllConcerning(es[..k], reviewer, s.author),
                      Concerning(es[k].0, reviewer, s.author));
    }
  }

  // ----- Approval is final until the reviewer is added again

  lemma {:induction false} UntrackedUntilAdded(p: PairState, es: seq<PairEvent>)
    requires p.pair == Untracked && Added !in es
    ensures PairAfter(p, es).pair == Untracked
  {
    if es != [] {
      UntrackedUntilAdded(p, es[..|es| - 1]);
    }
  }

  lemma {:induction false} NotAddedNotConcerned(es: seq<(Event, int)>, reviewer: string, author: string)
    requires forall e :: e in es ==> e.0 != Add(reviewer)
    ensures Added !in AllConcerning(es, reviewer, author)
  {
    if es != [] {
      assert es[|es| - 1] in es;
      NotAddedNotConcerned(es[..|es| - 1], reviewer, author);
    }
  }

  lemma {:induction false} ApprovalsAreKept(s: State, es: Run, a: string)
    requires Valid(s) && a in s.approvers
    ensures a in After(s, es).approvers && After(s, es).approvers[a] > 0
  {
    if es != [] {
      assert es[|es| - 1] in es;
      ApprovalsAreKept(s, es[..|es| - 1], a);
    }
  }

  /**
   * A tracked reviewer who approves stays untracked through any run in which they aren't added again,
   * and all that nudging them yields is the answer that they approved.
   */
  lemma {:induction false} ApprovedStaysUntracked(s: State, reviewer: string, now: int, es: Run)
    requires Valid(s) && reviewer in s.reviewers && reviewer != s.author && now > 0
    requires forall e :: e in es ==> e.0 != Add(reviewer)
    ensures var t := After(AfterRemove(s, reviewer, true, now), es);
            reviewer !in t.reviewers && NudgeAnswer(t, reviewer) == (false, true)
  {
    var s1 := AfterRemove(s, reviewer, true, now);
    PairsAreIsolated(s1, es, reviewer);
    NotAddedNotConcerned(es, reviewer, s1.author);
    UntrackedUntilAdded(PairOf(s1, reviewer), AllConcerning(es, reviewer, s1.author));
    ApprovalsAreKept(s1, es, reviewer);
    RunsStayValid(s1, es);
  }

  /** While frozen, a turn switch that isn't forced only records activity; a forced one ignores the freeze. */
  lemma FrozenSwitches(s: State, email: string, now: int)
    requires Valid(s) && Frozen(s)
    ensures AfterSwitch(s, email, false, now).(activity := s.activity) == s
    ensures AfterSwitch(s, email, true, now) ==
            AfterSwitch(AfterUnfreeze(s), email, true, now).(frozenAt := s.frozenAt, frozenBy := s.frozenBy)
  {
  }

  /** A switch that takes effect hands the turn from the author to all others, or from a reviewer to the author. */
  lemma SwitchHandsOver(s: State, email: string, force: bool, now: int)
    requires Valid(s) && Real(s.author) && (force || !Frozen(s)) && (email == s.author || email in s.reviewers)
    ensures var t := AfterSwitch(s, email, force, now);
            if email == s.author then
              && (forall r :: r in s.reviewers && r != s.author ==> HasTurn(t, r))
              && (HasTurn(t, s.author) <==> forall r :: r in s.reviewers ==> r == s.author)
            else
              && HasTurn(t, s.author) && !HasTurn(t, email)
              && forall u :: u != email && u != s.author ==> (HasTurn(t, u) <==> HasTurn(s, u))
  {
    var t := AfterSwitch(s, email, force, now);
    if email == s.author {
      if r :| r in s.reviewers && r != s.author {
        assert r in t.reviewers;
      } else {
        assert t.reviewers == map[];
      }
    } else {
      assert email in t.reviewers && !t.reviewers[email];
    }
  }

  /** Who froze the turns, and when, doesn't change until someone unfreezes them. */
  lemma {:induction false} FreezeIsKept(s: State, es: Run)
    requires Frozen(s) && forall e :: e in es ==> e.0 != Unfreeze
    ensures After(s, es).frozenAt == s.frozenAt && After(s, es).frozenBy == s.frozenBy
  {
    if es != [] {
      assert es[|es| - 1] in es;
      FreezeIsKept(s, es[..|es| - 1]);
    }
  }

  /** The last moment, in a run, at which a user did something that counts as activity; 0 if never. */
  function LastActive(s: State, es: Run, user: string): int {
    if es == [] then if user in s.activity then s.activity[user] else 0
    else
      var k := |es| - 1;
      var before := After(s, es[..k]);
      var active := match es[k].0
        case Switch(email, _) => email == user
        case Touch(email) => email == user
        case Remove(email, _) => email == user && email in before.reviewers
        case _ => false;
      if active && Real(user) then es[k].1 else LastActive(s, es[..k], user)
  }

  lemma StepRecordsActivity(s: State, e: Event, now: int, user: string)
    ensures var t := Step(s, e, now);
            var active := match e
              case Switch(email, _) => email == user
              case Touch(email) => email == user
              case Remove(email, _) => email == user && email in s.reviewers
              case _ => false;
            if active && Real(user) then user in t.activity && t.activity[user] == now
            else && (user in t.activity <==> user in s.activity)
                 && (user in t.activity ==> t.activity[user] == s.activity[user])
  {
  }

  /** The record of activity is exact for every user, frozen or not. */
  lemma {:induction false} ActivityIsLastActive(s: State, es: Run, user: string)
    ensures (if user in After(s, es).activity then After(s, es).activity[user] else 0) == LastActive(s, es, user)
  {
    if es != [] {
      var k := |es| - 1;
      assert es[k] in es;
      ActivityIsLastActive(s, es[..k], user);
      StepRecordsActivity(After(s, es[..k]), es[k].0, es[k].1, user);
    }
  }

  // ----- Approvals on record are just those given

  /** When a user approved, according to the record; 0 if never. */
  function ApprovalOf(s: State, user: string): int {
    if user in s.approvers then s.approvers[user] else 0
  }

  /** The `i`th event removes a tracked reviewer because they approved. */
  ghost predicate Approves(s: State, es: Run, i: nat, user: string) {
    i < |es| && es[i].0 == Remove(user, true) && Real(user) && user in After(s, es[..i]).reviewers
  }

  lemma ApprovesBefore(s: State, es: Run, i: nat, user: string)
    requires i < |es| - 1
    ensures Approves(s, es[..|es| - 1], i, user) <==> Approves(s, es, i, user)
  {
    assert es[..|es| - 1][..i] == es[..i];
  }

  lemma LastStepRecordsApproval(s: State, es: Run, user: string)
    requires es != []
    ensures ApprovalOf(After(s, es), user) ==
            if Approves(s, es, |es| - 1, user) then es[|es| - 1].1 else ApprovalOf(After(s, es[..|es| - 1]), user)
  {
  }

  /** The record of approval is the time at which the user last approved while tracked. */
  lemma {:induction false} LastApprovalIsRecorded(s: State, es: Run, i: nat, user: string)
    requires Approves(s, es, i, user) && forall j: nat :: i < j ==> !Approves(s, es, j, user)
    ensures ApprovalOf(After(s, es), user) == es[i].1
  {
    LastStepRecordsApproval(s, es, user);
    var rest := es[..|es| - 1];
    if i < |es| - 1 {
      ApprovesBefore(s, es, i, user);
      forall j: nat | i < j
        ensures !Approves(s, rest, j, user)
      {
        if j < |es| - 1 {
          ApprovesBefore(s, es, j, user);
        }
      }
      LastApprovalIsRecorded(s, rest, i, user);
    }
  }

  /** Without that, the record is what it was at first: being removed for other reasons is no approval. */
  lemma {:induction false} NothingElseIsRecorded(s: State, es: Run, user: string)
    requires forall i: nat :: !Approves(s, es, i, user)
    ensures ApprovalOf(After(s, es), user) == ApprovalOf(s, user)
  {
    if es != [] {
      LastStepRecordsApproval(s, es, user);
      var rest := es[..|es| - 1];
      forall j: nat
        ensures !Approves(s, rest, j, user)
      {
        if j < |es| - 1 {
          ApprovesBefore(s, es, j, user);
        }
      }
      NothingElseIsRecorded(s, rest, user);
    }
  }

  lemma {:induction false} ApprovedIfEverApproving(s: State, es: Run, i: nat, user: string)
    requires Approves(s, es, i, user)
    ensures ApprovalOf(After(s, es), user) > 0
  {
    var k := |es| - 1;
    assert es[k] in es;
    LastStepRecordsApproval(s, es, user);
    if !Approves(s, es, k, user) {
      ApprovesBefore(s, es, i, user);
      ApprovedIfEverApproving(s, es[..k], i, user);
    }
  }

  /** A nudge is allowed for the author and tracked reviewers; anyone else is told if they approved, and only then. */
  lemma NudgeAnswersExactly(s: State, es: Run, user: string)
    requires Valid(s) && Real(user) && user !in s.approvers
    ensures var t := After(s, es);
            var allowed := user == s.author || user in t.reviewers;
            NudgeAnswer(t, user) == (allowed, !allowed && exists i: nat :: Approves(s, es, i, user))
  {
    RunsStayValid(s, es);
    if i: nat :| Approves(s, es, i, user) {
      ApprovedIfEverApproving(s, es, i, user);
    } else {
      NothingElseIsRecorded(s, es, user);
    }
  }

  // ----- Who froze the turns

  /** The `i`th event freezes turns that aren't frozen yet. */
  ghost predicate Freezes(s: State, es: Run, i: nat) {
    i < |es| && es[i].0.Freeze? && Real(es[i].0.email) && !Frozen(After(s, es[..i]))
  }

  ghost predicate NoUnfreezeAfter(es: Run, i: int) {
    forall j :: 0 <= j && i < j < |es| ==> es[j].0 != Unfreeze
  }

  lemma FreezesBefore(s: State, es: Run, i: nat)
    requires i < |es| - 1
    ensures Freezes(s, es[..|es| - 1], i) <==> Freezes(s, es, i)
    ensures NoUnfreezeAfter(es, i) ==> NoUnfreezeAfter(es[..|es| - 1], i)
  {
    assert es[..|es| - 1][..i] == es[..i];
  }

  /** The record of who froze the turns, and when, is that of a freeze that took effect since the last unfreeze. */
  lemma {:induction false} FreezeIsRecorded(s: State, es: Run, i: nat)
    requires Freezes(s, es, i) && NoUnfreezeAfter(es, i)
    ensures After(s, es).frozenAt == es[i].1 > 0 && After(s, es).frozenBy == es[i].0.email
  {
    assert es[i] in es;
    if i < |es| - 1 {
      FreezesBefore(s, es, i);
      FreezeIsRecorded(s, es[..|es| - 1], i);
    }
  }

  /** Turns are frozen only by such a freeze, unless they were at first and still are. */
  lemma {:induction false} FrozenOnlyByFreeze(s: State, es: Run)
    requires Frozen(After(s, es))
    ensures || (exists i: nat :: Freezes(s, es, i) && NoUnfreezeAfter(es, i))
            || (Frozen(s) && NoUnfreezeAfter(es, -1))
  {
    if es != [] && !Freezes(s, es, |es| - 1) {
      var rest := es[..|es| - 1];
      FrozenOnlyByFreeze(s, rest);
      assert es[|es| - 1].0 != Unfreeze;
      if i: nat :| Freezes(s, rest, i) && NoUnfreezeAfter(rest, i) {
        FreezesBefore(s, es, i);
        assert NoUnfreezeAfter(es, i);
      } else {
        assert NoUnfreezeAfter(es, -1);
      }
    } else if es != [] {
      assert NoUnfreezeAfter(es, |es| - 1);
    }
  }

  // ----- The author as a reviewer

  /** Whether, and how, a user is tracked hasn't changed. */
  predicate TrackedAlike(s: State, t: State, user: string) {
    && (user in t.reviewers <==> user in s.reviewers)
    && (user in t.reviewers ==> t.reviewers[user] == s.reviewers[user])
  }

  /**
   * The author is tracked as a reviewer only by a nudge while someone is, and not any more after switching turns or
   * being removed. Nobody else's events make a difference.
   */
  lemma AuthorFollowsStep(s: State, e: Event, now: int)
    requires Valid(s) && Real(s.author)
    ensures var t, a := Step(s, e, now), s.author;
            if e == Nudge(a) && a !in s.reviewers then (a in t.reviewers <==> s.reviewers != map[]) && HasTurn(t, a)
            else if e.Switch? && e.email == a && (e.force || !Frozen(s)) then
              t.reviewers.Keys == s.reviewers.Keys - {a} && forall r :: r in t.reviewers ==> t.reviewers[r]
            else if e.Remove? && e.email == a then a !in t.reviewers
            else TrackedAlike(s, t, a)
  {
  }

  lemma {:induction false} AuthorIsTrackedByNudgeOnly(s: State, es: Run)
    requires Valid(s) && Real(s.author) && s.author !in s.reviewers && s.author in After(s, es).reviewers
    ensures exists i :: 0 <= i < |es| && es[i].0 == Nudge(s.author)
  {
    var k := |es| - 1;
    assert es[k] in es;
    RunsStayValid(s, es[..k]);
    AuthorFollowsStep(After(s, es[..k]), es[k].0, es[k].1);
    if es[k].0 != Nudge(s.author) {
      AuthorIsTrackedByNudgeOnly(s, es[..k]);
      var i :| 0 <= i < k && es[..k][i].0 == Nudge(s.author);
      assert es[i].0 == Nudge(s.author);
    }
  }

  // ----- The record itself, updated in place

  class PRTurns {
    var author: string
    var reviewers: map<string, bool>
    var activity: map<string, int>
    var approvers: map<string, int>
    var frozenAt: int
    var frozenBy: string

    ghost function View(): State
      reads this
    {
      State(author, reviewers, activity, approvers, frozenAt, frozenBy)
    }

    constructor InitTurns(authorEmail: string)
      ensures View() == Initial(authorEmail)
    {
      author, reviewers, activity, approvers, frozenAt, frozenBy := authorEmail, map[], map[], map[], 0, "";
    }

    /** Adds a reviewer, or nudges one. The answers are whether the nudge is allowed, and whether they had approved. */
    method SetReviewerTurn(email: string, nudge: bool) returns (done: bool, approved: bool)
      modifies this
      ensures View() == AfterSet(old(View()), email, nudge)
      ensures if nudge then (done, approved) == NudgeAnswer(old(View()), email) else done == Real(email) && !approved
    {
      if email == "" || email == "bot" {
        return false, false;
      }
      var foundInTurns := email in reviewers;
      var alreadyTheirTurn := foundInTurns && reviewers[email];
      if !nudge {
        // A no-op for the author, and for existing reviewers.
        if email == author || foundInTurns {
          return true, false;
        }
      } else if email == author {
        // Nothing changes, whether or not the author is a tracked reviewer.
        if |reviewers| == 0 || foundInTurns {
          SetOneself(View(), email);
          return true, false;
        }
      } else {
        if !foundInTurns {
          return false, email in approvers && approvers[email] != 0;
        }
        if alreadyTheirTurn {
          SetOneself(View(), email);
          return true, false;
        }
      }
      reviewers := reviewers[email := true];
      return true, false;
    }

    method SwitchTurn(email: string, force: bool, now: int)
      modifies this
      ensures View() == AfterSwitch(old(View()), email, force, now)
    {
      if email == "" || email == "bot" {
        return;
      }
      if frozenAt == 0 || force {
        if email == author {
          reviewers := reviewers - {email};
          ghost var others := reviewers;
          var todo := reviewers.Keys;
          while todo != {}
            invariant todo <= others.Keys && reviewers.Keys == others.Keys
            invariant forall r :: r in reviewers && r !in todo ==> reviewers[r]
            invariant View() == old(View()).(reviewers := reviewers)
          {
            var reviewer :| reviewer in todo;
            reviewers := reviewers[reviewer := true];
            todo := todo - {reviewer};
          }
          assert reviewers == EveryonesTurn(others);
        } else if email in reviewers {
          reviewers := reviewers[email := false];
        }
      }
      activity := activity[email := now];
    }

    method RemoveReviewerFromTurns(email: string, approved: bool, now: int)
      modifies this
      ensures View() == AfterRemove(old(View()), email, approved, now)
      ensures !approved ==> approvers == old(approvers)
    {
      if email == "" || email == "bot" || email !in reviewers {
        return;
      }
      reviewers := reviewers - {email};
      activity := activity[email := now];
      if approved {
        approvers := approvers[email := now];
      }
    }

    method UpdateActivityTime(email: string, now: int)
      modifies this
      ensures View() == Step(old(View()), Touch(email), now)
    {
      if email == "" || email == "bot" {
        return;
      }
      activity := activity[email := now];
    }

    method FreezeTurns(email: string, now: int) returns (done: bool)
      modifies this
      ensures View() == AfterFreeze(old(View()), email, now)
      ensures done <==> Real(email) && !Frozen(old(View()))
      ensures done ==> frozenAt == now && frozenBy == email
    {
      if email == "" || email == "bot" || frozenAt != 0 {
        return false;
      }
      frozenAt, frozenBy := now, email;
      return true;
    }

    method UnfreezeTurns() returns (done: bool)
      modifies this
      ensures View() == AfterUnfreeze(old(View()))
      ensures done <==> Frozen(old(View()))
      ensures frozenAt == 0 && (done ==> frozenBy == "")
    {
      if frozenAt == 0 {
        return false;
      }
      frozenAt, frozenBy := 0, "";
      return true;
    }

    /** The strictly sorted list of the users whose turn it is. */
    method ReadCurrentTurnEmails() returns (emails: seq<string>)
      ensures StrictlySorted(emails)
      ensures forall u :: u in emails <==> HasTurn(View(), u)
      ensures forall u :: u != author ==> (u in emails <==> u in reviewers && reviewers[u])
    {
      if |reviewers| == 0 && author != "" && author != "bot" {
        assert reviewers == map[];
        return [author];
      }
      emails := [];
      var includeAuthor := false;
      var todo := reviewers.Keys;
      while todo != {}
        invariant todo <= reviewers.Keys
        invariant forall u :: u in emails <==> u in reviewers && u !in todo && reviewers[u]
        invariant includeAuthor <==> exists r :: r in reviewers && r !in todo && !reviewers[r]
      {
        var email :| email in todo;
        if reviewers[email] {
          emails := emails + [email];
        } else {
          includeAuthor := true;
        }
        todo := todo - {email};
      }
      if includeAuthor && author != "" && author != "bot" {
        emails := emails + [author];
      }
      emails := SortCompact(emails);
    }

    // ----- Slash commands, as compositions of these operations

    /** "My turn": afterwards it is the caller's turn, and nobody else's state has changed. */
    method MyTurn(caller: string)
      requires Real(caller)
      modifies this
      ensures HasTurn(View(), caller)
      ensures View() == if HasTurn(old(View()), caller) then old(View())
                        else old(View()).(reviewers := old(reviewers)[caller := true])
    {
      var emails := ReadCurrentTurnEmails();
      if caller in emails {
        return;
      }
      var ok, _ := SetReviewerTurn(caller, true);
      if !ok {
        var _, _ := SetReviewerTurn(caller, false);
      }
    }

    /** "Not my turn": afterwards it isn't, unless the caller is the author and nobody else is tracked. */
    method NotMyTurn(caller: string, now: int)
      requires Real(caller)
      modifies this
      ensures HasTurn(View(), caller) <==> caller == author && old(reviewers).Keys <= {caller}
      ensures View() ==
              if HasTurn(old(View()), caller) then AfterSwitch(old(View()), caller, true, now) else old(View())
    {
      var emails := ReadCurrentTurnEmails();
      if caller !in emails {
        return;
      }
      SwitchTurn(caller, true, now);
      if caller == author {
        assert reviewers.Keys == old(reviewers).Keys - {caller};
        assert reviewers == map[] <==> reviewers.Keys == {};
      }
    }

    /** "Freeze": also takes the turn, if the caller is the author or a tracked reviewer. */
    method FreezeCommand(caller: string, now: int) returns (frozeNow: bool)
      requires Real(caller) && now > 0
      modifies this
      ensures Frozen(View())
      ensures View() == AfterSet(AfterFreeze(old(View()), caller, now), caller, true)
      ensures frozeNow <==> !Frozen(old(View()))
    {
      frozeNow := FreezeTurns(caller, now);
      var _, _ := SetReviewerTurn(caller, true);
    }
  }

  lemma SetOneself(s: State, email: string)
    requires (email in s.reviewers && (email == s.author || s.reviewers[email])) || |s.reviewers| == 0
    ensures email in s.reviewers && s.reviewers[email] ==> s.(reviewers := s.reviewers[email := true]) == s
    ensures |s.reviewers| == 0 ==> s.reviewers == map[]
  {
  }
}

/**
 * Mirroring edits of a pull-request comment. Bitbucket reports an edit only if ten minutes have passed since the
 * comment was created or last updated; a polling schedule is there to notice the silent edits in between.
 * Comments can be created and edited in Slack too; Bitbucket then reports what RevChat did, and that is ignored.
 * Times are in seconds.
 */
module CommentPolling {
  import opened Options

  const POLLING_WINDOW := 600
  const POLLING_INTERVAL := 19
  const POLLING_JITTER := 4

  const CREATED_BY := "\n\n[This comment was created by RevChat]: #"
  const UPDATED_BY := "\n\n[This comment was updated by RevChat]: #"

  predicate EndsWith(s: string, suffix: string) {
    |s| >= |suffix| && s[|s| - |suffix|..] == suffix
  }

  /** What Bitbucket reports: that the comment is new, or was edited, and its text. */
  datatype Notice = Notice(text: string, isNew: bool)

  /** RevChat tells its own doings by their text. */
  predicate Ignored(n: Notice) {
    EndsWith(n.text, if n.isNew then CREATED_BY else UPDATED_BY)
  }

  /** A schedule fires at multiples of the interval (each delayed by up to the jitter) until its end. */
  datatype Schedule = Schedule(checksum: string, startedAt: int, endAt: int, nextTick: int)

  /** The program's side: which text of the comment Slack shows, if any, and the schedule that polls for changes. */
  datatype Mirror = Mirror(text: Option<string>, schedule: Option<Schedule>)

  type Checksum = string -> string

  ghost predicate CollisionFree(sum: Checksum) {
    forall a, b :: sum(a) == sum(b) ==> a == b
  }

  /** The first multiple of the interval after a given time. */
  function NextNominal(now: int): int {
    (now / POLLING_INTERVAL + 1) * POLLING_INTERVAL
  }

  function NewSchedule(sum: Checksum, raw: string, now: int): Schedule {
    Schedule(sum(raw), now, now + POLLING_WINDOW + POLLING_INTERVAL, NextNominal(now))
  }

  /** Updating the message in Slack, if there is one, also (re)starts polling for further changes. */
  function Shown(sum: Checksum, m: Mirror, raw: string, now: int): Mirror {
    Mirror(if m.text.Some? then Some(raw) else None, Some(NewSchedule(sum, raw, now)))
  }

  /** A poll that finds the text of the comment. */
  function Polled(sum: Checksum, m: Mirror, current: string, now: int): Mirror
    requires m.schedule.Some?
  {
    if sum(current) != m.schedule.value.checksum then Shown(sum, m, current, now) else m
  }

  function Handled(sum: Checksum, m: Mirror, n: Notice, now: int): Mirror {
    if Ignored(n) then m else Shown(sum, if n.isNew then m.(text := Some(n.text)) else m, n.text, now)
  }

  // ----- The handlers

  class CommentMirror {
    var text: Option<string>
    var schedule: Option<Schedule>
    const sum: Checksum

    ghost function View(): Mirror
      reads this
    {
      Mirror(text, schedule)
    }

    /** Changes of this text will be noticed for the next ten minutes, and one tick. */
    ghost predicate PollsFor(raw: string, now: int)
      reads this
    {
      schedule.Some? && schedule.value.checksum == sum(raw) && schedule.value.endAt == now + 619
    }

    constructor (sum: Checksum)
      ensures this.sum == sum && View() == Mirror(None, None)
    {
      this.sum := sum;
      text, schedule := None, None;
    }

    /** Updates an existing schedule, or creates a new one: either way it starts over. */
    method SetSchedule(checksum: string, now: int)
      modifies `schedule
      ensures schedule == Some(Schedule(checksum, now, now + POLLING_WINDOW + POLLING_INTERVAL, NextNominal(now)))
    {
      var endAt := now + POLLING_WINDOW + POLLING_INTERVAL;
      match schedule {
        case Some(s) =>
          schedule := Some(s.(checksum := checksum, startedAt := now, endAt := endAt, nextTick := NextNominal(now)));
        case None =>
          schedule := Some(Schedule(checksum, now, endAt, NextNominal(now)));
      }
    }

    /** A new comment is posted in Slack, and polled from then on, unless it came from there. */
    method CommentCreated(raw: string, now: int)
      modifies this
      ensures View() == Handled(sum, old(View()), Notice(raw, true), now)
      ensures EndsWith(raw, CREATED_BY) ==> View() == old(View())
      ensures !EndsWith(raw, CREATED_BY) ==> text == Some(raw) && PollsFor(raw, now)
    {
      if EndsWith(raw, CREATED_BY) {
        return;
      }
      text := Some(raw);
      SetSchedule(sum(raw), now);
    }

    /** An edited comment is edited in Slack, and polled anew, unless the edit came from there. */
    method CommentUpdated(raw: string, now: int)
      modifies this
      ensures View() == Handled(sum, old(View()), Notice(raw, false), now)
      ensures EndsWith(raw, UPDATED_BY) ==> View() == old(View())
      ensures !EndsWith(raw, UPDATED_BY) ==> (text.Some? ==> text == Some(raw)) && PollsFor(raw, now)
    {
      if EndsWith(raw, UPDATED_BY) {
        return;
      }
      UpdateComment(raw, now);
    }

    /** Even if there is no message to edit, polling starts over. */
    method UpdateComment(raw: string, now: int)
      modifies this
      ensures View() == Shown(sum, old(View()), raw, now)
    {
      if text.Some? {
        text := Some(raw);
      }
      SetSchedule(sum(raw), now);
    }

    method StopPolling()
      modifies `schedule
      ensures schedule == None
    {
      schedule := None;
    }

    method PollComment(current: string, deleted: bool, now: int)
      requires schedule.Some?
      modifies this
      ensures !deleted ==> View() == Polled(sum, old(View()), current, now)
      ensures deleted ==> View() == Mirror(old(text), None)
    {
      if deleted {
        StopPolling();
      } else if sum(current) != schedule.value.checksum {
        UpdateComment(current, now);
      }
    }
  }

  // ----- The protocol: users edit here and there, Bitbucket reports or doesn't, notices are handled, ticks fire

  /**
   * Two history variables: `polled` is the text with which the schedule was last started, and `editedSince` is
   * since when there have been edits that no tick has looked at.
   */
  datatype World = World(
    now: int,
    text: string,
    updatedAt: int,
    notices: multiset<Notice>,
    mirror: Mirror,
    polled: string,
    editedSince: Option<int>)

  /** Edits carry the text that the comment then has in Bitbucket, RevChat's mark included. */
  datatype Event =
    | Edit(text: string, reported: bool)
    | SlackEdit(text: string, reported: bool)
    | Handle(notice: Notice)
    | Tick

  /** The comment was just created in Bitbucket, which is reported. */
  function FromBitbucket(text: string, now: int): World {
    World(now, text, now, multiset{Notice(text, true)}, Mirror(None, None), "", Some(now))
  }

  /** The comment was just created in Slack, and by RevChat in Bitbucket, which is reported too. */
  function FromSlack(text: string, now: int): World {
    World(now, text, now, multiset{Notice(text, true)}, Mirror(Some(text), None), "", Some(now))
  }

  /** There is a tick to come. */
  predicate Alive(m: Mirror) {
    m.schedule.Some? && m.schedule.value.nextTick <= m.schedule.value.endAt
  }

  /** Time doesn't go back, nor past a tick (and its jitter) that hasn't fired. */
  predicate TimeMayReach(w: World, t: int) {
    w.now <= t && (Alive(w.mirror) ==> t <= w.mirror.schedule.value.nextTick + POLLING_JITTER)
  }

  predicate MayBeReported(w: World, reported: bool, t: int) {
    if reported then t >= w.updatedAt + POLLING_WINDOW else t <= w.updatedAt + POLLING_WINDOW
  }

  predicate Possible(w: World, e: Event, t: int) {
    && TimeMayReach(w, t)
    && match e
       case Edit(_, reported) => MayBeReported(w, reported, t)
       case SlackEdit(text, reported) =>
         MayBeReported(w, reported, t) && w.mirror.text.Some? && EndsWith(text, UPDATED_BY)
       case Handle(n) => n in w.notices
       case Tick => Alive(w.mirror) && t >= w.mirror.schedule.value.nextTick
  }

  function Since(since: Option<int>, t: int): Option<int> {
    if since.None? then Some(t) else since
  }

  function Next(sum: Checksum, w: World, e: Event, t: int): World
    requires Possible(w, e, t)
  {
    match e
    case Edit(text, reported) =>
      var notices := if reported then w.notices + multiset{Notice(text, false)} else w.notices;
      World(t, text, t, notices, w.mirror, w.polled, Since(w.editedSince, t))
    case SlackEdit(text, reported) =>
      var notices := if reported then w.notices + multiset{Notice(text, false)} else w.notices;
      World(t, text, t, notices, w.mirror.(text := Some(text)), w.polled, Since(w.editedSince, t))
    case Handle(n) =>
      var v := w.(now := t, notices := w.notices - multiset{n}, mirror := Handled(sum, w.mirror, n, t));
      if Ignored(n) then v
      else v.(polled := n.text, editedSince := if n.text == w.text then None else Since(w.editedSince, t))
    case Tick =>
      var s := w.mirror.schedule.value;
      var m := w.mirror.(schedule := Some(s.(nextTick := s.nextTick + POLLING_INTERVAL)));
      w.(now := t, mirror := Polled(sum, m, w.text, t), polled := w.text, editedSince := None)
  }

  ghost predicate IsStart(w: World) {
    exists text, t :: t >= 0 && (w == FromBitbucket(text, t) || (EndsWith(text, CREATED_BY) && w == FromSlack(text, t)))
  }

  ghost predicate IsRun(sum: Checksum, ws: seq<World>, es: seq<(Event, int)>) {
    && |ws| == |es| + 1
    && IsStart(ws[0])
    && forall i :: 0 <= i < |es| ==>
                     Possible(ws[i], es[i].0, es[i].1) && ws[i + 1] == Next(sum, ws[i], es[i].0, es[i].1)
  }

  // ----- What every state keeps

  ghost predicate Inv(sum: Checksum, w: World) {
    && 0 <= w.updatedAt <= w.now
    && (w.editedSince.Some? ==> w.editedSince.value <= w.now)
    && (w.mirror.schedule.Some? ==>
          var s := w.mirror.schedule.value;
          && s.checksum == sum(w.polled)
          && 0 <= s.startedAt <= w.now
          && s.endAt == s.startedAt + POLLING_WINDOW + POLLING_INTERVAL
          && s.nextTick % POLLING_INTERVAL == 0
          && s.nextTick <= w.now + POLLING_INTERVAL
             // What no tick has looked at yet is looked at by the next one, and all else has been.
          && if w.editedSince.None? then w.polled == w.text
             else s.nextTick <= Max(w.editedSince.value, s.startedAt) + POLLING_INTERVAL)
    && (Alive(w.mirror) ==> w.now <= w.mirror.schedule.value.nextTick + POLLING_JITTER)
  }

  function Max(a: int, b: int): int {
    if a < b then b else a
  }

  lemma NextNominalIsNext(now: int)
    ensures now < NextNominal(now) <= now + POLLING_INTERVAL && NextNominal(now) % POLLING_INTERVAL == 0
  {
  }

  lemma IntervalsAddUp(t: int)
    requires t % POLLING_INTERVAL == 0
    ensures (t + POLLING_INTERVAL) % POLLING_INTERVAL == 0
  {
  }

  lemma EditKeepsInv(sum: Checksum, w: World, e: Event, t: int)
    requires Inv(sum, w) && Possible(w, e, t) && (e.Edit? || e.SlackEdit?)
    ensures Inv(sum, Next(sum, w, e, t))
  {
  }

  lemma HandlingKeepsInv(sum: Checksum, w: World, e: Event, t: int)
    requires Inv(sum, w) && Possible(w, e, t) && e.Handle?
    ensures Inv(sum, Next(sum, w, e, t))
  {
    NextNominalIsNext(t);
  }

  lemma TickKeepsInv(sum: Checksum, w: World, t: int)
    requires CollisionFree(sum) && Inv(sum, w) && Possible(w, Tick, t)
    ensures Inv(sum, Next(sum, w, Tick, t))
  {
    NextNominalIsNext(t);
    IntervalsAddUp(w.mirror.schedule.value.nextTick);
  }

  lemma InvIsKept(sum: Checksum, w: World, e: Event, t: int)
    requires CollisionFree(sum) && Inv(sum, w) && Possible(w, e, t)
    ensures Inv(sum, Next(sum, w, e, t))
  {
    match e
    case Edit(_, _) => EditKeepsInv(sum, w, e, t);
    case SlackEdit(_, _) => EditKeepsInv(sum, w, e, t);
    case Handle(_) => HandlingKeepsInv(sum, w, e, t);
    case Tick => TickKeepsInv(sum, w, t);
  }

  lemma {:induction false} InvHolds(sum: Checksum, ws: seq<World>, es: seq<(Event, int)>, i: nat)
    requires CollisionFree(sum) && IsRun(sum, ws, es) && i < |ws|
    ensures Inv(sum, ws[i])
  {
    if i > 0 {
      InvHolds(sum, ws, es, i - 1);
      InvIsKept(sum, ws[i - 1], es[i - 1].0, es[i - 1].1);
    }
  }

  /** While a tick is to come, no edit waits longer than an interval and the jitter to be looked at. */
  lemma LookedAtInTimeWhileAlive(sum: Checksum, ws: seq<World>, es: seq<(Event, int)>, i: nat)
    requires CollisionFree(sum) && IsRun(sum, ws, es) && i < |ws|
    requires Alive(ws[i].mirror) && ws[i].editedSince.Some?
    ensures ws[i].now <= Max(ws[i].editedSince.value, ws[i].mirror.schedule.value.startedAt)
                         + POLLING_INTERVAL + POLLING_JITTER
  {
    InvHolds(sum, ws, es, i);
  }

  /** A tick to come can always fire in time: no state is stuck. Slack then shows a text that isn't polled. */
  lemma TicksCanFire(sum: Checksum, w: World)
    requires CollisionFree(sum) && Inv(sum, w) && Alive(w.mirror)
    ensures var t := Max(w.now, w.mirror.schedule.value.nextTick);
            && Possible(w, Tick, t)
            && (w.text != w.polled && w.mirror.text.Some? ==> Next(sum, w, Tick, t).mirror.text == Some(w.text))
  {
  }

  // ----- Which edits are missed

  /** No notice is pending that will be acted upon. */
  ghost predicate NoNews(w: World) {
    forall n :: n in w.notices ==> Ignored(n)
  }

  /** Slack shows the text, and nothing is pending that would change that. */
  ghost predicate UpToDate(w: World) {
    w.mirror.text == Some(w.text) && NoNews(w)
  }

  /** The program at work, while nobody edits. */
  predicate Quiet(e: Event) {
    e.Handle? || e.Tick?
  }

  /** Quiet events lead from one state to another. */
  ghost predicate QuietlyLeads(sum: Checksum, w: World, es: seq<(Event, int)>, to: World)
    decreases |es|
  {
    if es == [] then to == w
    else
      && Quiet(es[0].0) && Possible(w, es[0].0, es[0].1)
      && QuietlyLeads(sum, Next(sum, w, es[0].0, es[0].1), es[1..], to)
  }

  /** An edit in Bitbucket that Slack will not show, whatever the program does, unless someone edits again. */
  ghost predicate Missed(sum: Checksum, w: World, x: string, reported: bool, t: int) {
    && Possible(w, Edit(x, reported), t)
    && forall es, v :: QuietlyLeads(sum, Next(sum, w, Edit(x, reported), t), es, v) ==> v.mirror.text != Some(v.text)
  }

  /** The program has no reason to act: no news, and no tick that would find the text changed. */
  ghost predicate Stuck(w: World) {
    w.mirror.text != Some(w.text) && NoNews(w) && (!Alive(w.mirror) || w.text == w.polled)
  }

  lemma {:induction false} StuckStaysStuck(sum: Checksum, w: World, es: seq<(Event, int)>, v: World)
    requires CollisionFree(sum) && Inv(sum, w) && Stuck(w) && QuietlyLeads(sum, w, es, v)
    ensures v.mirror.text != Some(v.text)
    decreases |es|
  {
    if es != [] {
      InvIsKept(sum, w, es[0].0, es[0].1);
      StuckStaysStuck(sum, Next(sum, w, es[0].0, es[0].1), es[1..], v);
    }
  }

  lemma OneQuietEvent(sum: Checksum, w: World, e: Event, t: int)
    requires Quiet(e) && Possible(w, e, t)
    ensures QuietlyLeads(sum, w, [(e, t)], Next(sum, w, e, t))
  {
    assert [(e, t)][1..] == [];
    assert QuietlyLeads(sum, Next(sum, w, e, t), [], Next(sum, w, e, t));
  }

  /**
   * An edit of an up-to-date comment is missed exactly if it changes the text, isn't reported (or is, but ends with
   * RevChat's mark), and either no tick is to come or the text is back to the polled one.
   */
  lemma EditIsMissedExactly(sum: Checksum, w: World, x: string, reported: bool, t: int)
    requires CollisionFree(sum) && Inv(sum, w) && UpToDate(w) && Possible(w, Edit(x, reported), t)
    ensures Missed(sum, w, x, reported, t) <==>
            && x != w.text && (reported ==> EndsWith(x, UPDATED_BY))
            && (!Alive(w.mirror) || x == w.polled)
  {
    InvIsKept(sum, w, Edit(x, reported), t);
    var edited := Next(sum, w, Edit(x, reported), t);
    if x == w.text {
      assert QuietlyLeads(sum, edited, [], edited);
    } else if reported && !EndsWith(x, UPDATED_BY) {
      var n := Notice(x, false);
      OneQuietEvent(sum, edited, Handle(n), t);
    } else if Alive(w.mirror) && x != w.polled {
      TicksCanFire(sum, edited);
      OneQuietEvent(sum, edited, Tick, Max(edited.now, edited.mirror.schedule.value.nextTick));
    } else {
      assert Stuck(edited);
      forall es, v | QuietlyLeads(sum, edited, es, v)
        ensures v.mirror.text != Some(v.text)
      {
        StuckStaysStuck(sum, edited, es, v);
      }
    }
  }

  // ----- When exactly the next silent edit can be missed

  /** If nobody edits for a while, and then someone does so silently in Bitbucket, that can be missed. */
  ghost predicate CanMissNextEdit(sum: Checksum, w: World) {
    exists es, v, x, t :: QuietlyLeads(sum, w, es, v) && Missed(sum, v, x, false, t)
  }

  /** The last time at which a schedule is meant to fire. */
  function LastNominal(s: Schedule): int {
    s.endAt / POLLING_INTERVAL * POLLING_INTERVAL
  }

  /** The earliest time of an edit that is missed: now, unless the schedule polls for changes of the current text. */
  function EarliestGap(w: World): int {
    if w.mirror.schedule.Some? && w.polled == w.text then Max(w.now, LastNominal(w.mirror.schedule.value)) else w.now
  }

  lemma LastNominalIsLast(s: Schedule)
    requires s.nextTick % POLLING_INTERVAL == 0
    ensures s.nextTick <= s.endAt <==> s.nextTick <= LastNominal(s)
    ensures s.endAt - POLLING_INTERVAL < LastNominal(s) <= s.endAt
    ensures LastNominal(s) % POLLING_INTERVAL == 0
  {
  }

  /** A quiet event keeps an up-to-date comment so, and brings no gap nearer; if it restarts polling, there is none. */
  lemma QuietEvent(sum: Checksum, w: World, e: Event, t: int)
    requires CollisionFree(sum) && Inv(sum, w) && UpToDate(w) && Quiet(e) && Possible(w, e, t)
    ensures var v := Next(sum, w, e, t);
            && Inv(sum, v) && UpToDate(v) && v.updatedAt == w.updatedAt && v.now == t
            && (EarliestGap(w) <= EarliestGap(v) || w.updatedAt + POLLING_WINDOW < EarliestGap(v))
  {
    InvIsKept(sum, w, e, t);
    var v := Next(sum, w, e, t);
    if v.mirror.schedule.Some? {
      LastNominalIsLast(v.mirror.schedule.value);
    }
  }

  /** A tick of a schedule that polls for changes of the current text leaves all as it is. */
  lemma QuietTick(sum: Checksum, w: World, t: int)
    requires CollisionFree(sum) && Inv(sum, w) && UpToDate(w) && w.polled == w.text && Possible(w, Tick, t)
    ensures var v, s := Next(sum, w, Tick, t), w.mirror.schedule.value;
            && Inv(sum, v) && UpToDate(v) && v.updatedAt == w.updatedAt && v.now == t && v.polled == v.text
            && v.mirror.schedule == Some(s.(nextTick := s.nextTick + POLLING_INTERVAL))
  {
    InvIsKept(sum, w, Tick, t);
  }

  lemma {:induction false} MissingTakesLateSilence(sum: Checksum, w: World, es: seq<(Event, int)>, v: World,
                                                   x: string, t: int)
    requires CollisionFree(sum) && Inv(sum, w) && UpToDate(w)
    requires QuietlyLeads(sum, w, es, v) && Missed(sum, v, x, false, t)
    ensures EarliestGap(w) <= w.updatedAt + POLLING_WINDOW
    decreases |es|
  {
    if es == [] {
      EditIsMissedExactly(sum, w, x, false, t);
      if w.mirror.schedule.Some? {
        LastNominalIsLast(w.mirror.schedule.value);
      }
    } else {
      QuietEvent(sum, w, es[0].0, es[0].1);
      MissingTakesLateSilence(sum, Next(sum, w, es[0].0, es[0].1), es[1..], v, x, t);
    }
  }

  lemma MissedAtOnce(sum: Checksum, w: World) returns (x: string)
    requires CollisionFree(sum) && Inv(sum, w) && UpToDate(w) && w.now <= w.updatedAt + POLLING_WINDOW
    requires !Alive(w.mirror) || w.polled != w.text
    ensures Missed(sum, w, x, false, w.now)
  {
    x := if w.polled != w.text then w.polled else w.text + "!";
    EditIsMissedExactly(sum, w, x, false, w.now);
  }

  lemma {:induction false} LateSilenceCanMiss(sum: Checksum, w: World)
      returns (es: seq<(Event, int)>, v: World, x: string, t: int)
    requires CollisionFree(sum) && Inv(sum, w) && UpToDate(w) && EarliestGap(w) <= w.updatedAt + POLLING_WINDOW
    ensures QuietlyLeads(sum, w, es, v) && Missed(sum, v, x, false, t)
    decreases if w.mirror.schedule.Some? then w.mirror.schedule.value.endAt - w.mirror.schedule.value.nextTick else 0
  {
    if Alive(w.mirror) && w.polled == w.text {
      LastNominalIsLast(w.mirror.schedule.value);
      var u := Max(w.now, w.mirror.schedule.value.nextTick);
      TicksCanFire(sum, w);
      QuietTick(sum, w, u);
      var rest;
      rest, v, x, t := LateSilenceCanMiss(sum, Next(sum, w, Tick, u));
      es := [(Tick, u)] + rest;
      assert es[1..] == rest;
    } else {
      es, v, t := [], w, w.now;
      x := MissedAtOnce(sum, w);
    }
  }

  /**
   * From an up-to-date state, the next silent edit can be missed exactly if the earliest gap comes while edits are
   * still silent: both times are known beforehand.
   */
  lemma NextEditCanBeMissedExactly(sum: Checksum, w: World)
    requires CollisionFree(sum) && Inv(sum, w) && UpToDate(w)
    ensures CanMissNextEdit(sum, w) <==> EarliestGap(w) <= w.updatedAt + POLLING_WINDOW
  {
    if CanMissNextEdit(sum, w) {
      var es, v, x, t :| QuietlyLeads(sum, w, es, v) && Missed(sum, v, x, false, t);
      MissingTakesLateSilence(sum, w, es, v, x, t);
    }
    if EarliestGap(w) <= w.updatedAt + POLLING_WINDOW {
      var es, v, x, t := LateSilenceCanMiss(sum, w);
    }
  }

  /** A schedule that polls for changes of the current text, and began no earlier than that, outlasts the silence. */
  lemma NoGapAfterRestart(sum: Checksum, w: World)
    requires CollisionFree(sum) && Inv(sum, w) && UpToDate(w) && w.mirror.schedule.Some? && w.polled == w.text
    requires w.updatedAt <= w.mirror.schedule.value.startedAt
    ensures !CanMissNextEdit(sum, w)
  {
    NextEditCanBeMissedExactly(sum, w);
    LastNominalIsLast(w.mirror.schedule.value);
  }

  // ----- Over whole runs: what can leave a gap, and what closes it

  /** The comment is in Slack, or will be once its notice is handled. */
  ghost predicate Followed(w: World) {
    w.mirror.text.Some? || exists n :: n in w.notices && n.isNew && !Ignored(n)
  }

  lemma FollowedIsKept(sum: Checksum, w: World, e: Event, t: int)
    requires Possible(w, e, t)
    ensures Followed(Next(sum, w, e, t)) <==> Followed(w)
  {
    if w.mirror.text.None? {
      var v := Next(sum, w, e, t);
      if e.Handle? && e.notice.isNew && !Ignored(e.notice) {
        assert Followed(w);
      } else {
        forall n: Notice | n.isNew && !Ignored(n)
          ensures n in v.notices <==> n in w.notices
        {
        }
      }
    }
  }

  /** Polling starts over, with the latest news or with the text found by a tick. */
  predicate Restarts(w: World, e: Event) {
    match e
    case Handle(n) => !Ignored(n)
    case Tick => w.text != w.polled
    case _ => false
  }

  /** A tick finds no change, although there were edits: the text is back to the polled one. */
  predicate SeesRevert(w: World, e: Event) {
    e.Tick? && w.editedSince.Some? && w.text == w.polled
  }

  /** An edit in Slack, or one that looks like it, with no tick to come. */
  predicate EditsUnnoticed(w: World, e: Event) {
    && !Alive(w.mirror)
    && (e.SlackEdit? || (e.Edit? && e.reported && Ignored(Notice(e.text, false))))
  }

  predicate LeavesGap(w: World, e: Event) {
    SeesRevert(w, e) || EditsUnnoticed(w, e)
  }

  /** With no news pending, the schedule reaches far enough for the next silent edit, or has edits to look at. */
  ghost predicate Covered(w: World) {
    NoNews(w) ==>
      && w.mirror.text.Some? && w.mirror.schedule.Some?
      && if w.editedSince.None? then UpToDate(w) && w.updatedAt <= w.mirror.schedule.value.startedAt
         else Alive(w.mirror)
  }

  lemma RestartCovers(sum: Checksum, w: World, e: Event, t: int)
    requires CollisionFree(sum) && Inv(sum, w) && Followed(w) && Possible(w, e, t) && Restarts(w, e)
    ensures Covered(Next(sum, w, e, t))
  {
    var v := Next(sum, w, e, t);
    FollowedIsKept(sum, w, e, t);
    if NoNews(v) {
      assert v.mirror.text.Some?;
    }
  }

  lemma CoveredIsKept(sum: Checksum, w: World, e: Event, t: int)
    requires CollisionFree(sum) && Inv(sum, w) && Followed(w) && Covered(w) && Possible(w, e, t) && !LeavesGap(w, e)
    ensures Covered(Next(sum, w, e, t))
  {
    if Restarts(w, e) {
      RestartCovers(sum, w, e, t);
    } else {
      NewsStay(sum, w, e, t);
    }
  }

  /** News stay until they are handled. */
  lemma NewsStay(sum: Checksum, w: World, e: Event, t: int)
    requires Possible(w, e, t) && !Restarts(w, e)
    ensures NoNews(Next(sum, w, e, t)) ==> NoNews(w)
  {
    var v := Next(sum, w, e, t);
    forall n | n in w.notices && NoNews(v)
      ensures Ignored(n)
    {
      assert n in v.notices || e == Handle(n);
    }
  }

  /** Nothing from the `k`th event on leaves a gap. */
  ghost predicate NoGapLeft(ws: seq<World>, es: seq<(Event, int)>, k: nat, i: nat)
    requires |ws| == |es| + 1 && i <= |es|
  {
    forall j :: k <= j < i ==> !LeavesGap(ws[j], es[j].0)
  }

  /** Polling has just started over, or will once the notice of a comment created in Bitbucket is handled. */
  ghost predicate JustStarted(ws: seq<World>, es: seq<(Event, int)>, k: nat)
    requires |ws| == |es| + 1 && k < |ws|
  {
    if k == 0 then !NoNews(ws[0]) else Restarts(ws[k - 1], es[k - 1].0)
  }

  lemma {:induction false} FollowedHolds(sum: Checksum, ws: seq<World>, es: seq<(Event, int)>, i: nat)
    requires IsRun(sum, ws, es) && i < |ws|
    ensures Followed(ws[i]) <==> Followed(ws[0])
  {
    if i > 0 {
      FollowedHolds(sum, ws, es, i - 1);
      FollowedIsKept(sum, ws[i - 1], es[i - 1].0, es[i - 1].1);
    }
  }

  lemma {:induction false} CoveredSince(sum: Checksum, ws: seq<World>, es: seq<(Event, int)>, k: nat, i: nat)
    requires CollisionFree(sum) && IsRun(sum, ws, es) && Followed(ws[0]) && k <= i < |ws|
    requires JustStarted(ws, es, k) && NoGapLeft(ws, es, k, i)
    ensures Covered(ws[i])
    decreases i - k
  {
    if i > 0 {
      InvHolds(sum, ws, es, i - 1);
      FollowedHolds(sum, ws, es, i - 1);
      if i == k {
        RestartCovers(sum, ws[i - 1], es[i - 1].0, es[i - 1].1);
      } else {
        CoveredSince(sum, ws, es, k, i - 1);
        CoveredIsKept(sum, ws[i - 1], es[i - 1].0, es[i - 1].1);
      }
    }
  }

  /**
   * As long as nothing leaves a gap since polling started over, no silent edit is missed: with no news pending, either
   * Slack shows the text, or the edits that no tick has looked at (or the schedule) are no older than 23 seconds and
   * a tick is to come. That goes for edits in Slack, too, while a tick is to come.
   */
  lemma NoSilentEditIsMissed(sum: Checksum, ws: seq<World>, es: seq<(Event, int)>, k: nat, i: nat)
    requires CollisionFree(sum) && IsRun(sum, ws, es) && Followed(ws[0]) && k <= i < |ws|
    requires JustStarted(ws, es, k) && NoGapLeft(ws, es, k, i)
    ensures NoNews(ws[i]) ==>
              || ws[i].mirror.text == Some(ws[i].text)
              || (&& Alive(ws[i].mirror) && ws[i].editedSince.Some?
                  && ws[i].now <= Max(ws[i].editedSince.value, ws[i].mirror.schedule.value.startedAt)
                                  + POLLING_INTERVAL + POLLING_JITTER)
  {
    CoveredSince(sum, ws, es, k, i);
    InvHolds(sum, ws, es, i);
  }

  ghost predicate NoRestart(ws: seq<World>, es: seq<(Event, int)>, k: nat, i: nat)
    requires |ws| == |es| + 1 && i <= |es|
  {
    forall j :: k <= j < i ==> !Restarts(ws[j], es[j].0)
  }

  lemma {:induction false} LastRestart(ws: seq<World>, es: seq<(Event, int)>, i: nat) returns (k: nat)
    requires |ws| == |es| + 1 && i <= |es|
    ensures k <= i && (k > 0 ==> Restarts(ws[k - 1], es[k - 1].0)) && NoRestart(ws, es, k, i)
  {
    if i == 0 || Restarts(ws[i - 1], es[i - 1].0) {
      k := i;
    } else {
      k := LastRestart(ws, es, i - 1);
    }
  }

  /**
   * If the next silent edit of an up-to-date comment can be missed, then the comment was created in Slack and never
   * polled, or something left a gap since polling last started over, or a tick has yet to look at the last edits.
   */
  lemma OnlyTheseLeaveGaps(sum: Checksum, ws: seq<World>, es: seq<(Event, int)>, i: nat)
    requires CollisionFree(sum) && IsRun(sum, ws, es) && i < |ws|
    requires UpToDate(ws[i]) && CanMissNextEdit(sum, ws[i])
    ensures || (NoNews(ws[0]) && NoRestart(ws, es, 0, i))
            || (exists j: nat :: j < i && LeavesGap(ws[j], es[j].0) && NoRestart(ws, es, j + 1, i))
            || (Alive(ws[i].mirror) && ws[i].editedSince.Some?)
  {
    InvHolds(sum, ws, es, i);
    FollowedHolds(sum, ws, es, i);
    var k := LastRestart(ws, es, i);
    if JustStarted(ws, es, k) && NoGapLeft(ws, es, k, i) {
      CoveredSince(sum, ws, es, k, i);
      if ws[i].editedSince.None? {
        NoGapAfterRestart(sum, ws[i]);
      }
    } else if JustStarted(ws, es, k) {
      var j: nat :| k <= j < i && LeavesGap(ws[j], es[j].0);
      assert NoRestart(ws, es, j + 1, i);
    }
  }

  // ----- Each of these does leave a gap

  lemma Extend(sum: Checksum, ws: seq<World>, es: seq<(Event, int)>, e: Event, t: int)
      returns (ws': seq<World>, es': seq<(Event, int)>)
    requires IsRun(sum, ws, es) && Possible(ws[|es|], e, t)
    ensures ws' == ws + [Next(sum, ws[|es|], e, t)] && es' == es + [(e, t)]
    ensures IsRun(sum, ws', es')
  {
    ws', es' := ws + [Next(sum, ws[|es|], e, t)], es + [(e, t)];
    forall i | 0 <= i < |es'|
      ensures Possible(ws'[i], es'[i].0, es'[i].1) && ws'[i + 1] == Next(sum, ws'[i], es'[i].0, es'[i].1)
    {
      if i < |es| {
        assert ws'[i] == ws[i] && ws'[i + 1] == ws[i + 1] && es'[i] == es[i];
      } else {
        assert ws'[i] == ws[|es|] && es'[i] == (e, t);
      }
    }
  }

  lemma Marked(x: string, mark: string)
    ensures EndsWith(x + mark, mark)
  {
  }

  /** The state of a comment "a", created in Bitbucket at `start`, that has been polled up to now. */
  function Quietly(sum: Checksum, start: int, now: int, updatedAt: int, nextTick: int): World {
    World(now, "a", updatedAt, multiset{}, Mirror(Some("a"), Some(Schedule(sum("a"), start, start + 619, nextTick))),
          "a", None)
  }

  /** Created in Bitbucket as "a", and posted in Slack at once. */
  lemma Posted(sum: Checksum, start: int) returns (ws: seq<World>, es: seq<(Event, int)>)
    requires 0 <= start < 19
    ensures IsRun(sum, ws, es) && es != [] && ws[|es|] == Quietly(sum, start, start, start, 19)
  {
    ws, es := [FromBitbucket("a", start)], [];
    assert multiset{Notice("a", true)} - multiset{Notice("a", true)} == multiset{};
    ws, es := Extend(sum, ws, es, Handle(Notice("a", true)), start);
  }

  /** Ticks that find nothing new, one after the other, up to time `last`. */
  lemma {:induction false} QuietTicks(sum: Checksum, ws: seq<World>, es: seq<(Event, int)>, start: int, last: int)
      returns (ws': seq<World>, es': seq<(Event, int)>)
    requires IsRun(sum, ws, es)
    requires var w := ws[|es|];
             w == Quietly(sum, start, w.now, w.updatedAt, w.now + 19) && w.now <= last <= start + 619
             && (last - w.now) % 19 == 0
    ensures IsRun(sum, ws', es') && |es| <= |es'|
    ensures ws'[|es'|] == Quietly(sum, start, last, ws[|es|].updatedAt, last + 19)
    decreases last - ws[|es|].now
  {
    if ws[|es|].now == last {
      ws', es' := ws, es;
    } else {
      ws', es' := Extend(sum, ws, es, Tick, ws[|es|].now + 19);
      ws', es' := QuietTicks(sum, ws', es', start, last);
    }
  }

  /** Edited to "b" and back before the first tick, which therefore does nothing. */
  lemma RevertSeen(sum: Checksum, start: int, there: int, back: int) returns (ws: seq<World>, es: seq<(Event, int)>)
    requires CollisionFree(sum) && 0 <= start <= there <= back < 19
    ensures IsRun(sum, ws, es) && es != [] && SeesRevert(ws[|es| - 1], es[|es| - 1].0)
    ensures ws[|es|] == Quietly(sum, start, 19, back, 38)
  {
    ws, es := Posted(sum, start);
    ws, es := Extend(sum, ws, es, Edit("b", false), there);
    ws, es := Extend(sum, ws, es, Edit("a", false), back);
    ws, es := Extend(sum, ws, es, Tick, 19);
  }

  /** A revert seen early enough leaves no gap: edited at 2 and back at 3, with a schedule that began at 1. */
  lemma EarlyRevertLeavesNoGap(sum: Checksum) returns (ws: seq<World>, es: seq<(Event, int)>)
    requires CollisionFree(sum)
    ensures IsRun(sum, ws, es) && es != [] && SeesRevert(ws[|es| - 1], es[|es| - 1].0)
    ensures UpToDate(ws[|es|]) && !CanMissNextEdit(sum, ws[|es|])
  {
    ws, es := RevertSeen(sum, 1, 2, 3);
    InvHolds(sum, ws, es, |es|);
    NextEditCanBeMissedExactly(sum, ws[|es|]);
  }

  /** Edited and edited back before the first tick, then edited after the last tick but within ten minutes. */
  lemma RevertHidesLaterEdit(sum: Checksum) returns (ws: seq<World>, es: seq<(Event, int)>)
    requires CollisionFree(sum)
    ensures IsRun(sum, ws, es) && UpToDate(ws[|es|]) && Missed(sum, ws[|es|], "c", false, 610)
  {
    ws, es := RevertSeen(sum, 0, 9, 10);
    ws, es := QuietTicks(sum, ws, es, 0, 608);
    InvHolds(sum, ws, es, |es|);
    EditIsMissedExactly(sum, ws[|es|], "c", false, 610);
  }

  /** A comment created in Slack isn't polled: any silent edit of it, in the ten minutes after, is missed. */
  lemma SlackCommentsAreNotPolled(sum: Checksum, text: string, created: int, x: string, t: int)
    requires CollisionFree(sum) && EndsWith(text, CREATED_BY) && x != text
    requires 0 <= created <= t <= created + POLLING_WINDOW
    ensures IsRun(sum, [FromSlack(text, created)], [])
    ensures UpToDate(FromSlack(text, created)) && Missed(sum, FromSlack(text, created), x, false, t)
  {
    EditIsMissedExactly(sum, FromSlack(text, created), x, false, t);
  }

  /** Polled until 608 without any gap, edited in Slack at 700, then silently in Bitbucket at 800: missed. */
  lemma SlackEditIsNotPolled(sum: Checksum) returns (ws: seq<World>, es: seq<(Event, int)>)
    requires CollisionFree(sum)
    ensures IsRun(sum, ws, es) && es != [] && EditsUnnoticed(ws[|es| - 1], es[|es| - 1].0)
    ensures UpToDate(ws[|es| - 1]) && !CanMissNextEdit(sum, ws[|es| - 1])
    ensures UpToDate(ws[|es|]) && Missed(sum, ws[|es|], "c", false, 800)
    ensures var w := ws[|es|]; w.text == "b" + UPDATED_BY && w.updatedAt == w.now == 700 && !Alive(w.mirror)
  {
    ws, es := Posted(sum, 0);
    ws, es := Extend(sum, ws, es, Tick, 19);
    ws, es := QuietTicks(sum, ws, es, 0, 608);
    InvHolds(sum, ws, es, |es|);
    NextEditCanBeMissedExactly(sum, ws[|es|]);
    Marked("b", UPDATED_BY);
    ws, es := Extend(sum, ws, es, SlackEdit("b" + UPDATED_BY, true), 700);
    InvHolds(sum, ws, es, |es|);
    assert |"c"| != |"b" + UPDATED_BY|;
    EditIsMissedExactly(sum, ws[|es|], "c", false, 800);
  }

  /** Edited in Slack while polled, and silently back in Bitbucket before the next tick: missed, despite all ticks. */
  lemma BackToPolledTextIsMissed(sum: Checksum) returns (ws: seq<World>, es: seq<(Event, int)>)
    requires CollisionFree(sum)
    ensures IsRun(sum, ws, es) && UpToDate(ws[|es|]) && Alive(ws[|es|].mirror)
    ensures Missed(sum, ws[|es|], "a", false, 6)
  {
    ws, es := Posted(sum, 0);
    Marked("b", UPDATED_BY);
    ws, es := Extend(sum, ws, es, SlackEdit("b" + UPDATED_BY, false), 5);
    InvHolds(sum, ws, es, |es|);
    assert |"a"| != |"b" + UPDATED_BY|;
    EditIsMissedExactly(sum, ws[|es|], "a", false, 6);
  }

  lemma MarkedEditIsMissed(sum: Checksum, w: World, x: string, t: int)
    requires CollisionFree(sum) && Inv(sum, w) && UpToDate(w) && !Alive(w.mirror)
    requires x + UPDATED_BY != w.text && t >= w.now && t >= w.updatedAt + POLLING_WINDOW
    ensures Missed(sum, w, x + UPDATED_BY, true, t)
  {
    Marked(x, UPDATED_BY);
    EditIsMissedExactly(sum, w, x + UPDATED_BY, true, t);
  }

  /** A reported edit in Bitbucket that leaves RevChat's mark in place looks like one from Slack: missed. */
  lemma MarkHidesReportedEdit(sum: Checksum) returns (ws: seq<World>, es: seq<(Event, int)>)
    requires CollisionFree(sum)
    ensures IsRun(sum, ws, es) && UpToDate(ws[|es|]) && Missed(sum, ws[|es|], "c" + UPDATED_BY, true, 1400)
  {
    ws, es := SlackEditIsNotPolled(sum);
    InvHolds(sum, ws, es, |es|);
    assert ("c" + UPDATED_BY)[0] != ("b" + UPDATED_BY)[0];
    MarkedEditIsMissed(sum, ws[|es|], "c", 1400);
  }
}

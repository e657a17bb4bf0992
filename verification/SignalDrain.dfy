/** Draining all signal channels before the dispatcher's history is reset, without losing a signal. */
module SignalDrain {

  type Signal = string

  // Channels are numbered in the order in which they are drained.
  const BITBUCKET_PR_CHANNELS := 13
  const BITBUCKET_REPO_CHANNELS := 4
  const GITHUB_CHANNELS := 5
  const SLACK_CHANNELS := 9
  const CHANNELS := BITBUCKET_PR_CHANNELS + BITBUCKET_REPO_CHANNELS + GITHUB_CHANNELS + SLACK_CHANNELS

  const QUIET_CYCLES := 3

  type Channel = c: nat | c < CHANNELS

  type Queues = q: seq<seq<Signal>> | |q| == CHANNELS witness seq(CHANNELS, _ => [])

  /** Signals arrive in batches, one batch whenever the workflow is blocked. */
  type Batch = seq<(Channel, Signal)>

  function Deliver(pending: Queues, batch: Batch): Queues
    decreases |batch|
  {
    if batch == [] then pending
    else
      var (c, s) := batch[0];
      Deliver(pending[c := pending[c] + [s]], batch[1..])
  }

  /** The signals of one channel in a batch, in order. */
  function OnChannel(batch: Batch, c: Channel): seq<Signal> {
    if batch == [] then [] else (if batch[0].0 == c then [batch[0].1] else []) + OnChannel(batch[1..], c)
  }

  function AllOnChannel(batches: seq<Batch>, c: Channel): seq<Signal> {
    if batches == [] then [] else OnChannel(batches[0], c) + AllOnChannel(batches[1..], c)
  }

  lemma {:induction false} DeliverAppends(pending: Queues, batch: Batch, c: Channel)
    ensures Deliver(pending, batch)[c] == pending[c] + OnChannel(batch, c)
    decreases |batch|
  {
    if batch != [] {
      var (d, s) := batch[0];
      DeliverAppends(pending[d := pending[d] + [s]], batch[1..], c);
    }
  }

  // ----- How much is left to do

  function Size(q: seq<seq<Signal>>): nat {
    if q == [] then 0 else |q[0]| + Size(q[1..])
  }

  function Arrivals(batches: seq<Batch>): nat {
    if batches == [] then 0 else |batches[0]| + Arrivals(batches[1..])
  }

  lemma {:induction false} SizeOfUpdate(q: seq<seq<Signal>>, c: nat, s: seq<Signal>)
    requires c < |q|
    ensures Size(q[c := s]) == Size(q) - |q[c]| + |s|
  {
    if c == 0 {
      assert q[c := s][1..] == q[1..];
    } else {
      assert q[c := s][1..] == q[1..][c - 1 := s];
      SizeOfUpdate(q[1..], c - 1, s);
    }
  }

  lemma {:induction false} SizeOfDeliver(pending: Queues, batch: Batch)
    ensures Size(Deliver(pending, batch)) == Size(pending) + |batch|
    decreases |batch|
  {
    if batch != [] {
      var (c, s) := batch[0];
      SizeOfUpdate(pending, c, pending[c] + [s]);
      SizeOfDeliver(pending[c := pending[c] + [s]], batch[1..]);
    }
  }

  // ----- The workflow and its channels

  datatype State = State(pending: Queues, handled: Queues, arrived: Queues, future: seq<Batch>)

  /** Handled signals, followed by pending ones, are the arrivals in order. */
  ghost predicate Conserved(s: State) {
    forall c: Channel :: s.handled[c] + s.pending[c] == s.arrived[c]
  }

  /** All that ever arrives on a channel. */
  function Total(s: State, c: Channel): seq<Signal> {
    s.arrived[c] + AllOnChannel(s.future, c)
  }

  /** Signals still to be handled, arrived or not. */
  function Work(s: State): nat {
    Size(s.pending) + Arrivals(s.future)
  }

  /** Between two states nothing was lost, reordered or un-handled, and some (or none) was handled. */
  ghost predicate Progress(before: State, after: State, count: nat) {
    && (Conserved(before) ==> Conserved(after))
    && (forall c: Channel :: Total(after, c) == Total(before, c))
    && (forall c: Channel :: before.handled[c] <= after.handled[c])
    && Work(after) + count == Work(before)
    && (count == 0 ==> after.handled == before.handled)
  }

  lemma ProgressTransitive(a: State, b: State, c: State, m: nat, n: nat)
    requires Progress(a, b, m) && Progress(b, c, n)
    ensures Progress(a, c, m + n)
  {
  }

  /** The arrival of the next batch. */
  lemma BatchIsProgress(s: State)
    requires s.future != []
    ensures var batch := s.future[0];
            Progress(s, State(Deliver(s.pending, batch), s.handled, Deliver(s.arrived, batch), s.future[1..]), 0)
  {
    var batch := s.future[0];
    var after := State(Deliver(s.pending, batch), s.handled, Deliver(s.arrived, batch), s.future[1..]);
    SizeOfDeliver(s.pending, batch);
    forall c: Channel
      ensures Total(after, c) == Total(s, c)
      ensures s.handled[c] + s.pending[c] == s.arrived[c] ==> after.handled[c] + after.pending[c] == after.arrived[c]
    {
      DeliverAppends(s.pending, batch, c);
      DeliverAppends(s.arrived, batch, c);
      var arriving := OnChannel(batch, c);
      assert (s.arrived[c] + arriving) + AllOnChannel(s.future[1..], c) ==
             s.arrived[c] + (arriving + AllOnChannel(s.future[1..], c));
      assert s.handled[c] + (s.pending[c] + arriving) == (s.handled[c] + s.pending[c]) + arriving;
    }
  }

  ghost predicate AllEmpty(s: State, lo: nat, hi: nat)
    requires lo <= hi <= CHANNELS
  {
    forall c :: lo <= c < hi ==> s.pending[c] == []
  }

  class Dispatcher {
    var pending: Queues
    var handled: Queues
    ghost var arrived: Queues
    var future: seq<Batch> // The environment's plan, which the program cannot see.

    ghost function View(): State
      reads this
    {
      State(pending, handled, arrived, future)
    }

    constructor (future: seq<Batch>)
      ensures View() == State(seq(CHANNELS, _ => []), seq(CHANNELS, _ => []), seq(CHANNELS, _ => []), future)
    {
      pending, handled := seq(CHANNELS, _ => []), seq(CHANNELS, _ => []);
      arrived := seq(CHANNELS, _ => []);
      this.future := future;
    }

    /** The workflow waits for something, and the next batch of signals arrives meanwhile. */
    method Block()
      modifies `pending, `arrived, `future
      ensures Progress(old(View()), View(), 0)
      ensures old(future) == [] ==> View() == old(View())
    {
      if future != [] {
        BatchIsProgress(View());
        var batch := future[0];
        pending := Deliver(pending, batch);
        arrived := Deliver(arrived, batch);
        future := future[1..];
      }
    }

    /** Handles the first pending signal of a channel, if any, and waits for its handler. */
    method ReceiveAsync(c: Channel) returns (received: bool)
      modifies this
      ensures received <==> old(pending[c]) != []
      ensures !received ==> View() == old(View())
      ensures received ==> Progress(old(View()), View(), 1) && old(handled[c]) + [old(pending[c])[0]] <= handled[c]
    {
      if pending[c] == [] {
        return false;
      }
      var signal := pending[c][0];
      SizeOfUpdate(pending, c, pending[c][1..]);
      assert handled[c] + pending[c] == (handled[c] + [signal]) + pending[c][1..];
      pending := pending[c := pending[c][1..]];
      handled := handled[c := handled[c] + [signal]];
      assert Progress(old(View()), View(), 1);
      label L:
      Block();
      ProgressTransitive(old(View()), old@L(View()), View(), 1, 0);
      return true;
    }

    /** Drains one channel, including what arrives on it meanwhile, and counts. */
    method DrainChannel(c: Channel) returns (signalEvents: nat)
      modifies this
      ensures Progress(old(View()), View(), signalEvents)
      ensures pending[c] == []
      ensures signalEvents == 0 ==> View() == old(View())
    {
      signalEvents := 0;
      while true
        invariant Progress(old(View()), View(), signalEvents)
        invariant signalEvents == 0 ==> View() == old(View())
        decreases Work(View())
      {
        label L:
        var received := ReceiveAsync(c);
        if !received {
          break;
        }
        ProgressTransitive(old(View()), old@L(View()), View(), signalEvents, 1);
        signalEvents := signalEvents + 1;
      }
    }

    /** Drains one source of events, channel by channel. */
    method DrainSource(first: nat, count: nat) returns (found: bool, ghost total: nat)
      requires first + count <= CHANNELS
      modifies this
      ensures Progress(old(View()), View(), total) && (found <==> total > 0)
      ensures !found ==> View() == old(View()) && AllEmpty(View(), first, first + count)
    {
      var totalEvents := 0;
      for i := first to first + count
        invariant Progress(old(View()), View(), totalEvents)
        invariant totalEvents == 0 ==> View() == old(View()) && AllEmpty(View(), first, i)
      {
        label L:
        var signalEvents := DrainChannel(i);
        ProgressTransitive(old(View()), old@L(View()), View(), totalEvents, signalEvents);
        totalEvents := totalEvents + signalEvents;
      }
      return totalEvents > 0, totalEvents;
    }

    /** Drains every source, whatever others yielded. A cycle that finds nothing has seen all channels empty at once. */
    method DrainCycle() returns (found: bool)
      modifies this
      ensures found ==> exists n :: n > 0 && Progress(old(View()), View(), n)
      ensures !found ==> View() == old(View()) && AllEmpty(View(), 0, CHANNELS)
    {
      ghost var v0 := View();
      var bitbucketPR, n1 := DrainSource(0, BITBUCKET_PR_CHANNELS);
      ghost var v1 := View();
      var bitbucketRepo, n2 := DrainSource(BITBUCKET_PR_CHANNELS, BITBUCKET_REPO_CHANNELS);
      ghost var v2 := View();
      ProgressTransitive(v0, v1, v2, n1, n2);
      var github, n3 := DrainSource(BITBUCKET_PR_CHANNELS + BITBUCKET_REPO_CHANNELS, GITHUB_CHANNELS);
      ghost var v3 := View();
      ProgressTransitive(v0, v2, v3, n1 + n2, n3);
      var slack, n4 := DrainSource(BITBUCKET_PR_CHANNELS + BITBUCKET_REPO_CHANNELS + GITHUB_CHANNELS, SLACK_CHANNELS);
      ProgressTransitive(v0, v3, View(), n1 + n2 + n3, n4);
      found := bitbucketPR || bitbucketRepo || github || slack;
    }

    /**
     * Waits for all handlers, and drains until three cycles in a row find nothing. It terminates if finitely many
     * signals arrive; then no channel has a signal left, and on each of them all arrivals were handled in order.
     */
    method PrepareForReset()
      requires Conserved(View())
      modifies this
      ensures exists n: nat :: Progress(old(View()), View(), n)
      ensures AllEmpty(View(), 0, CHANNELS)
      ensures forall c: Channel :: handled[c] == arrived[c]
      ensures forall c: Channel :: handled[c] + AllOnChannel(future, c) == Total(old(View()), c)
    {
      Block();
      ghost var done := 0;
      var cyclesSinceLastSignal := 0;
      while cyclesSinceLastSignal < QUIET_CYCLES
        invariant cyclesSinceLastSignal <= QUIET_CYCLES
        invariant Progress(old(View()), View(), done)
        invariant cyclesSinceLastSignal > 0 ==> AllEmpty(View(), 0, CHANNELS)
        decreases Work(View()), QUIET_CYCLES - cyclesSinceLastSignal
      {
        label L:
        var found := DrainCycle();
        if found {
          ghost var n :| n > 0 && Progress(old@L(View()), View(), n);
          ProgressTransitive(old(View()), old@L(View()), View(), done, n);
          done := done + n;
          cyclesSinceLastSignal := -1; // Becomes 0 right away.
        }
        cyclesSinceLastSignal := cyclesSinceLastSignal + 1;
      }
      forall c: Channel
        ensures handled[c] == arrived[c]
        ensures handled[c] + AllOnChannel(future, c) == Total(old(View()), c)
      {
        assert handled[c] + pending[c] == arrived[c] && pending[c] == [];
        assert Total(View(), c) == Total(old(View()), c);
      }
    }
  }

  /** Over any number of steps, what was handled and what is pending are, channel by channel, what had arrived. */
  lemma {:induction false} ProgressNeverLoses(states: seq<State>, counts: seq<nat>)
    requires |states| == |counts| + 1 && Conserved(states[0])
    requires forall i :: 0 <= i < |counts| ==> Progress(states[i], states[i + 1], counts[i])
    ensures var last := states[|counts|];
            && Conserved(last)
            && forall c: Channel :: states[0].handled[c] <= last.handled[c] && Total(last, c) == Total(states[0], c)
  {
    var n := |counts|;
    if n > 0 {
      ProgressNeverLoses(states[..n], counts[..n - 1]);
      assert Progress(states[n - 1], states[n - 1 + 1], counts[n - 1]);
      assert states[..n][n - 1] == states[n - 1];
      forall c: Channel
        ensures Total(states[n], c) == Total(states[0], c)
      {
        assert Total(states[n], c) == Total(states[n - 1], c);
      }
    }
  }
}

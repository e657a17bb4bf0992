/** The clean-up command, which is cut short and restarted as often as its host asks for. */
module Maintenance {
  import opened Ordering

  const FINISHED_SKIPPING := "/finished skipping within loop"

  /** A command starts with a slash; a cursor left behind by a cut (a channel ID or a URL) doesn't. */
  predicate IsCommand(s: string) {
    "/" <= s
  }

  /** What one pass over a list does: the items it processes, what it leaves as the cursor, and whether it was cut. */
  datatype Pass = Pass(processed: seq<string>, command: string, cut: bool)

  /** `cuts[i]` says whether the host asks to continue as new when item `i` comes up. */
  function Walk(items: seq<string>, cuts: seq<bool>, command: string): Pass
    requires |cuts| == |items|
  {
    if items == [] then Pass([], command, false)
    else if cuts[0] then Pass([], items[0], true)
    else if !IsCommand(command) && command != items[0] then Walk(items[1..], cuts[1..], command)
    else
      var rest := Walk(items[1..], cuts[1..], if IsCommand(command) then command else FINISHED_SKIPPING);
      rest.(processed := [items[0]] + rest.processed)
  }

  /** Channels first; URLs only if that wasn't cut. */
  function BothPhases(channels: seq<string>, urls: seq<string>, cuts: seq<bool>, urlCuts: seq<bool>,
                      command: string): Pass
    requires |cuts| == |channels| && |urlCuts| == |urls|
  {
    var first := Walk(channels, cuts, command);
    if first.cut then first
    else
      var second := Walk(urls, urlCuts, first.command);
      second.(processed := first.processed + second.processed)
  }

  /** The two phases are one pass over both lists, cursor and all. */
  lemma {:induction false} PhasesAreOnePass(channels: seq<string>, urls: seq<string>, cuts: seq<bool>,
                                            urlCuts: seq<bool>, command: string)
    requires |cuts| == |channels| && |urlCuts| == |urls|
    ensures BothPhases(channels, urls, cuts, urlCuts, command) == Walk(channels + urls, cuts + urlCuts, command)
  {
    if channels == [] {
      assert channels + urls == urls && cuts + urlCuts == urlCuts;
      var second := Walk(urls, urlCuts, command);
      assert [] + second.processed == second.processed;
    } else {
      assert (channels + urls)[1..] == channels[1..] + urls && (cuts + urlCuts)[1..] == cuts[1..] + urlCuts;
      var next := if IsCommand(command) then command
                  else if command == channels[0] then FINISHED_SKIPPING else command;
      PhasesAreOnePass(channels[1..], urls, cuts[1..], urlCuts, next);
      var first := Walk(channels[1..], cuts[1..], next);
      var second := Walk(urls, urlCuts, first.command);
      assert ([channels[0]] + first.processed) + second.processed
             == [channels[0]] + (first.processed + second.processed);
    }
  }

  /** Channel IDs sort before URLs, so both lists together are sorted too. */
  lemma BothListsAreSorted(channels: seq<string>, urls: seq<string>)
    requires StrictlySorted(channels) && StrictlySorted(urls)
    requires forall c :: c in channels ==> "C" <= c
    requires forall u :: u in urls ==> "https://" <= u
    ensures StrictlySorted(channels + urls) && forall x :: x in channels + urls ==> !IsCommand(x)
  {
    forall x | x in channels + urls
      ensures !IsCommand(x)
    {
      assert x in channels || x in urls;
      assert x[0] == "C"[0] || x[0] == "https://"[0];
    }
    forall i, j | 0 <= i < |channels| && 0 <= j < |urls|
      ensures Less(channels[i], urls[j])
    {
      assert channels[i] in channels && urls[j] in urls;
      assert "C"[0] == 'C' && "https://"[0] == 'h';
      assert channels[i][0] == 'C' && urls[j][0] == 'h';
    }
  }

  // ----- The command itself

  class CleanCommand {
    var command: string            // The slash command, or the cursor.
    var processed: seq<string>     // A log of what was checked and cleaned, if need be.

    constructor (command: string)
      ensures this.command == command && processed == []
    {
      this.command := command;
      processed := [];
    }

    method ContinueAsNew(next: string, suggested: bool) returns (skip: bool, cut: bool)
      modifies `command
      ensures suggested ==> cut && !skip && command == next
      ensures !suggested ==> !cut && (skip <==> !IsCommand(old(command)) && old(command) != next)
      ensures !suggested ==>
                command == if old(command) == next && !IsCommand(next) then FINISHED_SKIPPING else old(command)
    {
      if suggested {
        command := next;
        return false, true;
      }
      if !("/" <= command) {
        skip := command != next;
        if !skip {
          command := FINISHED_SKIPPING;
        }
        return skip, false;
      }
      return false, false;
    }

    /** The loop that goes over the channels, and likewise over the URLs. */
    method CleanItems(items: seq<string>, cuts: seq<bool>) returns (cut: bool)
      requires |cuts| == |items|
      modifies this
      ensures Pass(processed, command, cut) ==
              var w := Walk(items, cuts, old(command)); w.(processed := old(processed) + w.processed)
    {
      ghost var all := Walk(items, cuts, command);
      ghost var was := processed;
      assert items[0..] == items && cuts[0..] == cuts;
      for i := 0 to |items|
        invariant was <= processed
        invariant var rest := Walk(items[i..], cuts[i..], command);
                  rest.(processed := processed + rest.processed) == all.(processed := was + all.processed)
      {
        assert items[i..][1..] == items[i + 1..] && cuts[i..][1..] == cuts[i + 1..];
        ghost var before := processed;
        var skip, stop := ContinueAsNew(items[i], cuts[i]);
        if stop {
          return true;
        }
        if !skip {
          processed := processed + [items[i]];
          ghost var rest := Walk(items[i + 1..], cuts[i + 1..], command).processed;
          assert before + ([items[i]] + rest) == processed + rest;
        }
      }
      return false;
    }

    method CleanPRData(channels: seq<string>, urls: seq<string>, cuts: seq<bool>, urlCuts: seq<bool>)
      returns (cut: bool)
      requires |cuts| == |channels| && |urlCuts| == |urls|
      modifies this
      ensures Pass(processed, command, cut) ==
              var w := BothPhases(channels, urls, cuts, urlCuts, old(command));
              w.(processed := old(processed) + w.processed)
    {
      cut := CleanItems(channels, cuts);
      if !cut {
        cut := CleanItems(urls, urlCuts);
      }
    }
  }

  // ----- One pass over a sorted list

  ghost predicate Listing(items: seq<string>) {
    StrictlySorted(items) && forall x :: x in items ==> !IsCommand(x)
  }

  /** The part of a list that a pass has to deal with: from the cursor on, or everything. */
  function From(items: seq<string>, command: string): seq<string> {
    if items == [] || IsCommand(command) || items[0] == command then items else From(items[1..], command)
  }

  /** The host asks to continue as new before the pass has come back to the cursor. */
  predicate CutWhileSkipping(items: seq<string>, cuts: seq<bool>, command: string)
    requires |cuts| == |items|
  {
    && items != [] && !IsCommand(command) && items[0] != command
    && (cuts[0] || CutWhileSkipping(items[1..], cuts[1..], command))
  }

  lemma ListingTail(items: seq<string>)
    requires Listing(items) && items != []
    ensures Listing(items[1..])
    ensures forall x :: x in items <==> x == items[0] || x in items[1..]
    ensures forall x :: x in items[1..] ==> Less(items[0], x) && x != items[0] && !Less(x, items[0])
  {
    assert items == [items[0]] + items[1..];
    forall x | x in items[1..]
      ensures Less(items[0], x) && x != items[0] && !Less(x, items[0])
    {
      LessIrreflexive(x);
      if Less(x, items[0]) {
        LessTransitive(x, items[0], x);
      }
    }
  }

  /** A pass processes all that lies between its cursor and the next one, whatever else happens. */
  lemma {:induction false} PassCovers(items: seq<string>, cuts: seq<bool>, command: string)
    requires |cuts| == |items| && Listing(items) && (IsCommand(command) || command in items)
    ensures var w := Walk(items, cuts, command);
            && (w.cut ==> w.command in items)
            && forall x :: x in items && (IsCommand(command) || !Less(x, command)) && (w.cut ==> Less(x, w.command)) ==>
                             x in w.processed
  {
    if items != [] {
      ListingTail(items);
      if cuts[0] {
        LessIrreflexive(items[0]);
      } else if IsCommand(command) || command == items[0] {
        PassCovers(items[1..], cuts[1..], if IsCommand(command) then command else FINISHED_SKIPPING);
      } else {
        PassCovers(items[1..], cuts[1..], command);
      }
    }
  }

  /** What a pass has to do, and what it leaves to the next one, add up. */
  ghost predicate Exact(items: seq<string>, w: Pass, command: string) {
    From(items, command) == w.processed + if w.cut then From(items, w.command) else []
  }

  /** Adding an earlier item to a list doesn't move a cursor further on. */
  lemma FromTail(items: seq<string>, command: string)
    requires Listing(items) && items != [] && command in items[1..]
    ensures From(items, command) == From(items[1..], command)
  {
    ListingTail(items);
  }

  lemma SkippingIsExact(items: seq<string>, w: Pass, command: string)
    requires Listing(items) && items != [] && command in items[1..] && Exact(items[1..], w, command)
    requires w.cut ==> w.command in items[1..]
    ensures Exact(items, w, command)
  {
    FromTail(items, command);
    if w.cut {
      FromTail(items, w.command);
    }
  }

  lemma ProcessingIsExact(items: seq<string>, w: Pass, command: string, next: string)
    requires Listing(items) && items != [] && (IsCommand(command) || items[0] == command)
    requires IsCommand(next) && Exact(items[1..], w, next)
    requires w.cut ==> w.command in items[1..]
    ensures Exact(items, w.(processed := [items[0]] + w.processed), command)
  {
    if w.cut {
      FromTail(items, w.command);
    }
    var left := if w.cut then From(items[1..], w.command) else [];
    assert items[1..] == w.processed + left;
    assert items == [items[0]] + items[1..];
    assert [items[0]] + (w.processed + left) == ([items[0]] + w.processed) + left;
  }

  /** A pass that isn't cut while skipping processes, in order, all from its cursor up to the next one. */
  lemma {:induction false} PassIsExact(items: seq<string>, cuts: seq<bool>, command: string)
    requires |cuts| == |items| && Listing(items) && (IsCommand(command) || command in items)
    requires !CutWhileSkipping(items, cuts, command)
    ensures Exact(items, Walk(items, cuts, command), command)
  {
    if items != [] && !cuts[0] {
      ListingTail(items);
      if IsCommand(command) || command == items[0] {
        var next := if IsCommand(command) then command else FINISHED_SKIPPING;
        PassIsExact(items[1..], cuts[1..], next);
        CursorIsAhead(items[1..], cuts[1..], next);
        ProcessingIsExact(items, Walk(items[1..], cuts[1..], next), command, next);
      } else {
        PassIsExact(items[1..], cuts[1..], command);
        CursorIsAhead(items[1..], cuts[1..], command);
        SkippingIsExact(items, Walk(items[1..], cuts[1..], command), command);
      }
    }
  }

  lemma {:induction false} CursorIsAhead(items: seq<string>, cuts: seq<bool>, command: string)
    requires |cuts| == |items| && Listing(items)
    ensures Walk(items, cuts, command).cut ==> Walk(items, cuts, command).command in items
  {
    if items != [] {
      ListingTail(items);
      if !cuts[0] {
        CursorIsAhead(items[1..], cuts[1..], command);
        CursorIsAhead(items[1..], cuts[1..], FINISHED_SKIPPING);
      }
    }
  }

  /** An uncut pass resumes at its cursor if that is still listed; if it isn't, the pass ends without doing anything. */
  lemma {:induction false} UncutPassNeedsItsCursor(items: seq<string>, cuts: seq<bool>, command: string)
    requires |cuts| == |items| && Listing(items) && !IsCommand(command) && true !in cuts
    ensures Walk(items, cuts, command).processed == if command in items then From(items, command) else []
  {
    if items != [] {
      ListingTail(items);
      assert cuts[0] in cuts;
      if command == items[0] {
        PassIsExact(items, cuts, command);
        NeverCut(items, cuts, command);
      } else {
        UncutPassNeedsItsCursor(items[1..], cuts[1..], command);
      }
    }
  }

  lemma {:induction false} NeverCut(items: seq<string>, cuts: seq<bool>, command: string)
    requires |cuts| == |items| && true !in cuts
    ensures !Walk(items, cuts, command).cut
  {
    if items != [] {
      assert cuts[0] in cuts;
      NeverCut(items[1..], cuts[1..], command);
      NeverCut(items[1..], cuts[1..], FINISHED_SKIPPING);
    }
  }

  // ----- The whole history of a command, over all its restarts

  datatype AnyRun = Run(items: seq<string>, cuts: seq<bool>, command: string)

  /** One run of the command: what was listed, when the host asked to continue as new, and the cursor it began with. */
  type Run = r: AnyRun | |r.cuts| == |r.items| witness Run([], [], "")

  function PassOf(r: Run): Pass {
    Walk(r.items, r.cuts, r.command)
  }

  /** A run follows on a cut one, and starts at its cursor, which is still listed. Nothing is listed anew. */
  ghost predicate Follows(runs: seq<Run>, i: nat)
    requires 0 < i < |runs|
  {
    var before, r := runs[i - 1], runs[i];
    && PassOf(before).cut && r.command == PassOf(before).command && r.command in r.items
    && forall x :: x in r.items ==> x in before.items
  }

  ghost predicate History(runs: seq<Run>) {
    && runs != [] && IsCommand(runs[0].command)
    && (forall i :: 0 <= i < |runs| ==> Listing(runs[i].items))
    && (forall i: nat :: 0 < i < |runs| ==> Follows(runs, i))
  }

  /** An item was listed for one run but not for the next. */
  predicate Dropped(runs: seq<Run>, i: nat, x: string)
    requires 0 < i < |runs|
  {
    x in runs[i - 1].items && x !in runs[i].items
  }

  ghost predicate Processed(runs: seq<Run>, n: nat, x: string)
    requires n <= |runs|
  {
    exists i :: 0 <= i < n && x in PassOf(runs[i]).processed
  }

  lemma CursorIsListed(runs: seq<Run>, n: nat)
    requires History(runs) && n < |runs|
    ensures IsCommand(runs[n].command) || runs[n].command in runs[n].items
  {
    if n > 0 {
      assert Follows(runs, n);
    }
  }

  lemma {:induction false} BehindCursorIsProcessed(runs: seq<Run>, n: nat)
    requires History(runs) && n < |runs|
    ensures n > 0 ==> forall x :: x in runs[n].items && Less(x, runs[n].command) ==> Processed(runs, n, x)
  {
    if n > 0 {
      var r := runs[n - 1];
      assert Follows(runs, n);
      CursorIsListed(runs, n - 1);
      BehindCursorIsProcessed(runs, n - 1);
      PassCovers(r.items, r.cuts, r.command);
      forall x | x in runs[n].items && Less(x, runs[n].command)
        ensures Processed(runs, n, x)
      {
        if n > 1 && Less(x, r.command) {
          assert Processed(runs, n - 1, x);
        } else {
          assert x in PassOf(runs[n - 1]).processed;
        }
      }
    }
  }

  lemma {:induction false} ListedUnlessDropped(runs: seq<Run>, n: nat, x: string)
    requires n < |runs| && x in runs[0].items
    requires forall i: nat :: 0 < i <= n ==> !Dropped(runs, i, x)
    ensures x in runs[n].items
  {
    if n > 0 {
      ListedUnlessDropped(runs, n - 1, x);
      assert !Dropped(runs, n, x);
    }
  }

  /**
   * However often the command is cut, whatever was listed at first has been processed once it ends,
   * unless it was no longer listed when some run began.
   */
  lemma NothingIsLeftUnprocessed(runs: seq<Run>, x: string)
    requires History(runs) && !PassOf(runs[|runs| - 1]).cut && x in runs[0].items
    requires forall i: nat :: 0 < i < |runs| ==> !Dropped(runs, i, x) || Processed(runs, i, x)
    ensures Processed(runs, |runs|, x)
  {
    var n := |runs| - 1;
    var last := runs[n];
    if forall i: nat :: 0 < i < |runs| ==> !Dropped(runs, i, x) {
      ListedUnlessDropped(runs, n, x);
      BehindCursorIsProcessed(runs, n);
      CursorIsListed(runs, n);
      PassCovers(last.items, last.cuts, last.command);
      if n > 0 && Less(x, last.command) {
        assert Processed(runs, n, x);
      } else {
        assert x in PassOf(runs[n]).processed;
      }
    }
  }

  /** All that the first `n` runs processed, in order. */
  function Log(runs: seq<Run>, n: nat): seq<string>
    requires n <= |runs|
  {
    if n == 0 then [] else Log(runs, n - 1) + PassOf(runs[n - 1]).processed
  }

  /** Lists lose nothing but what was processed. */
  ghost predicate LosesOnlyProcessed(runs: seq<Run>) {
    forall i: nat, x :: 0 < i < |runs| && Dropped(runs, i, x) ==> x in Log(runs, i)
  }

  ghost predicate NeverCutWhileSkipping(runs: seq<Run>) {
    forall r :: r in runs ==> !CutWhileSkipping(r.items, r.cuts, r.command)
  }

  lemma {:induction false} FromIsSuffix(items: seq<string>, command: string)
    requires Listing(items) && command in items
    ensures StrictlySorted(From(items, command))
    ensures forall x :: x in From(items, command) <==> x in items && !Less(x, command)
  {
    ListingTail(items);
    if items[0] == command {
      LessIrreflexive(items[0]);
    } else {
      FromIsSuffix(items[1..], command);
    }
  }

  lemma InBothParts(a: seq<string>, b: seq<string>, x: string)
    requires x in a && x in b
    ensures !StrictlySorted(a + b)
  {
    var i :| 0 <= i < |a| && a[i] == x;
    var j :| 0 <= j < |b| && b[j] == x;
    LessIrreflexive(x);
    assert (a + b)[i] == x && (a + b)[|a| + j] == x;
  }

  /** What is left to do after a cut is listed just the same in the next run. */
  lemma RestIsStillListed(before: seq<string>, now: seq<string>, cursor: string, log: seq<string>)
    requires Listing(before) && Listing(now) && cursor in before && cursor in now
    requires forall x :: x in now ==> x in before
    requires forall x :: x in before && x !in now ==> x in log
    requires StrictlySorted(log + From(before, cursor))
    ensures From(now, cursor) == From(before, cursor)
  {
    FromIsSuffix(now, cursor);
    FromIsSuffix(before, cursor);
    forall x
      ensures x in From(now, cursor) <==> x in From(before, cursor)
    {
      if x in From(before, cursor) && x in log {
        InBothParts(log, From(before, cursor), x);
      }
    }
    SortedListingIsUnique(From(now, cursor), From(before, cursor));
  }

  /** One restart: what was left to do before the cut run is what it did and what is left to do now. */
  lemma CutAndResume(before: Run, now: Run, log: seq<string>)
    requires Listing(before.items) && Listing(now.items)
    requires IsCommand(before.command) || before.command in before.items
    requires !CutWhileSkipping(before.items, before.cuts, before.command)
    requires PassOf(before).cut && now.command == PassOf(before).command && now.command in now.items
    requires forall x :: x in now.items ==> x in before.items
    requires forall x :: x in before.items && x !in now.items ==> x in log + PassOf(before).processed
    requires StrictlySorted(log + From(before.items, before.command))
    ensures (log + PassOf(before).processed) + From(now.items, now.command) == log + From(before.items, before.command)
  {
    var w := PassOf(before);
    PassIsExact(before.items, before.cuts, before.command);
    CursorIsAhead(before.items, before.cuts, before.command);
    var rest := From(before.items, w.command);
    assert log + (w.processed + rest) == (log + w.processed) + rest;
    RestIsStillListed(before.items, now.items, w.command, log + w.processed);
  }

  lemma {:induction false} LogAndRest(runs: seq<Run>, n: nat)
    requires History(runs) && LosesOnlyProcessed(runs) && NeverCutWhileSkipping(runs) && n < |runs|
    ensures Log(runs, n) + From(runs[n].items, runs[n].command) == runs[0].items
  {
    if n > 0 {
      assert Follows(runs, n);
      CursorIsListed(runs, n - 1);
      LogAndRest(runs, n - 1);
      forall x | x in runs[n - 1].items && x !in runs[n].items
        ensures x in Log(runs, n)
      {
        assert Dropped(runs, n, x);
      }
      CutAndResume(runs[n - 1], runs[n], Log(runs, n - 1));
    }
  }

  /** If no cut falls while skipping, all runs together process each item exactly once, in order. */
  lemma UncutSkippingIsExact(runs: seq<Run>)
    requires History(runs) && LosesOnlyProcessed(runs) && !PassOf(runs[|runs| - 1]).cut
    requires NeverCutWhileSkipping(runs)
    ensures Log(runs, |runs|) == runs[0].items
  {
    var n := |runs| - 1;
    var last := runs[n];
    LogAndRest(runs, n);
    CursorIsListed(runs, n);
    PassIsExact(last.items, last.cuts, last.command);
    assert PassOf(last).processed + [] == PassOf(last).processed;
  }

  ghost predicate NoDuplicates(s: seq<string>) {
    forall i, j :: 0 <= i < j < |s| ==> s[i] != s[j]
  }

  lemma SortedHasNoDuplicates(s: seq<string>)
    requires StrictlySorted(s)
    ensures NoDuplicates(s)
  {
    forall i, j | 0 <= i < j < |s|
      ensures s[i] != s[j]
    {
      LessIrreflexive(s[i]);
    }
  }

  lemma {:induction false} InLog(runs: seq<Run>, n: nat, x: string)
    requires n <= |runs|
    ensures x in Log(runs, n) <==> Processed(runs, n, x)
  {
    if n > 0 {
      InLog(runs, n - 1, x);
      if Processed(runs, n, x) && !Processed(runs, n - 1, x) {
        assert x in PassOf(runs[n - 1]).processed;
      }
      if x in PassOf(runs[n - 1]).processed {
        assert Processed(runs, n, x);
      }
    }
  }

  lemma {:induction false} LogGrows(runs: seq<Run>, n: nat, m: nat)
    requires n <= m <= |runs|
    ensures Log(runs, n) <= Log(runs, m)
  {
    if n < m {
      LogGrows(runs, n, m - 1);
    }
  }

  lemma InTwoParts(a: seq<string>, b: seq<string>, all: seq<string>, x: string)
    requires x in a && x in b && a + b <= all
    ensures !NoDuplicates(all)
  {
    var i :| 0 <= i < |a| && a[i] == x;
    var j :| 0 <= j < |b| && b[j] == x;
    assert all[i] == (a + b)[i] && all[|a| + j] == (a + b)[|a| + j];
  }

  lemma RepeatedInLog(runs: seq<Run>, n: nat, x: string)
    requires n < |runs| && x in Log(runs, n) && x in PassOf(runs[n]).processed
    ensures !NoDuplicates(Log(runs, |runs|))
  {
    LogGrows(runs, n + 1, |runs|);
    InTwoParts(Log(runs, n), PassOf(runs[n]).processed, Log(runs, |runs|), x);
  }

  /** A pass processes its cursor, unless it is cut there, or before: then it processes nothing. */
  lemma {:induction false} CursorComesFirst(items: seq<string>, cuts: seq<bool>, command: string)
    requires |cuts| == |items| && Listing(items) && command in items
    ensures var w := Walk(items, cuts, command);
            || command in w.processed
            || (w.cut && w.command in items && (w.command == command || Less(w.command, command)))
    ensures var w := Walk(items, cuts, command);
            CutWhileSkipping(items, cuts, command) ==> w.cut && w.command in items && Less(w.command, command)
  {
    ListingTail(items);
    if items[0] != command {
      CursorComesFirst(items[1..], cuts[1..], command);
    }
  }

  /** Once a run starts at a cursor that was processed before, some run processes it, or an earlier one, again. */
  lemma {:induction false} ProcessedCursorRepeats(runs: seq<Run>, n: nat)
    requires History(runs) && !PassOf(runs[|runs| - 1]).cut && 0 < n < |runs|
    requires runs[n].command in Log(runs, n)
    ensures !NoDuplicates(Log(runs, |runs|))
    decreases |runs| - n
  {
    var r := runs[n];
    var w := PassOf(r);
    assert Follows(runs, n);
    CursorComesFirst(r.items, r.cuts, r.command);
    if r.command in w.processed {
      RepeatedInLog(runs, n, r.command);
    } else {
      assert Follows(runs, n + 1);
      NextCursorIsProcessed(runs, n);
      ProcessedCursorRepeats(runs, n + 1);
    }
  }

  /** A cursor that stays, or moves back, is a processed one. */
  lemma NextCursorIsProcessed(runs: seq<Run>, n: nat)
    requires History(runs) && 0 < n < |runs| - 1
    requires PassOf(runs[n]).cut && PassOf(runs[n]).command in runs[n].items
    requires || Less(PassOf(runs[n]).command, runs[n].command)
             || (PassOf(runs[n]).command == runs[n].command && runs[n].command in Log(runs, n))
    ensures runs[n + 1].command in Log(runs, n + 1)
  {
    assert Follows(runs, n + 1);
    var next := runs[n + 1].command;
    BehindCursorIsProcessed(runs, n);
    InLog(runs, n, next);
    LogGrows(runs, n, n + 1);
  }

  /** Every cut while skipping moves the cursor back to something processed already, which is then repeated. */
  lemma CutWhileSkippingRepeats(runs: seq<Run>, n: nat)
    requires History(runs) && !PassOf(runs[|runs| - 1]).cut && n < |runs|
    requires CutWhileSkipping(runs[n].items, runs[n].cuts, runs[n].command)
    ensures !NoDuplicates(Log(runs, |runs|))
  {
    CursorIsListed(runs, n);
    CursorComesFirst(runs[n].items, runs[n].cuts, runs[n].command);
    NextCursorIsProcessed(runs, n);
    ProcessedCursorRepeats(runs, n + 1);
  }

  /**
   * All runs together process each item of the first list exactly once and in order, or at least nothing twice,
   * exactly if no run is cut while skipping.
   */
  lemma EachExactlyOnceInOrder(runs: seq<Run>)
    requires History(runs) && LosesOnlyProcessed(runs) && !PassOf(runs[|runs| - 1]).cut
    ensures NeverCutWhileSkipping(runs) <==> Log(runs, |runs|) == runs[0].items
    ensures NeverCutWhileSkipping(runs) <==> NoDuplicates(Log(runs, |runs|))
  {
    SortedHasNoDuplicates(runs[0].items);
    if NeverCutWhileSkipping(runs) {
      UncutSkippingIsExact(runs);
    } else {
      var r :| r in runs && CutWhileSkipping(r.items, r.cuts, r.command);
      var n :| 0 <= n < |runs| && runs[n] == r;
      CutWhileSkippingRepeats(runs, n);
    }
  }

  const ITEMS := ["C1", "C2", "C3"]

  /** The second of these runs is cut while skipping. */
  const CUT_TWICE: seq<Run> :=
    [Run(ITEMS, [false, false, true], "/clean"), Run(ITEMS, [false, true, false], "C3"),
     Run(ITEMS, [false, false, false], "C2")]

  lemma ThreeItems()
    ensures Listing(ITEMS) && IsCommand("/clean") && IsCommand(FINISHED_SKIPPING)
    ensures !IsCommand("C1") && !IsCommand("C2") && !IsCommand("C3")
  {
    assert "C1"[1] == '1' && "C2"[1] == '2' && "C3"[1] == '3';
    assert "/"[0] == '/' && "/clean"[0] == '/';
    assert "C1"[1..] == "1" && "C2"[1..] == "2" && "C3"[1..] == "3";
  }

  lemma PassesOfCutTwice()
    ensures PassOf(CUT_TWICE[0]) == Pass(["C1", "C2"], "C3", true)
    ensures PassOf(CUT_TWICE[1]) == Pass([], "C2", true)
    ensures PassOf(CUT_TWICE[2]).processed == ["C2", "C3"] && !PassOf(CUT_TWICE[2]).cut
  {
    ThreeItems();
    assert ITEMS[1..] == ["C2", "C3"] && ["C2", "C3"][1..] == ["C3"] && ["C3"][1..] == [];
    assert [false, false, true][1..] == [false, true] && [false, true][1..] == [true] && [true][1..] == [];
    assert [false, true, false][1..] == [true, false];
    assert [false, false, false][1..] == [false, false] && [false, false][1..] == [false] && [false][1..] == [];
    assert Walk(["C3"], [true], "/clean") == Pass([], "C3", true);
    assert Walk(["C2", "C3"], [false, true], "/clean") == Pass(["C2"], "C3", true);
    assert Walk(["C2", "C3"], [true, false], "C3") == Pass([], "C2", true);
    assert Walk(["C3"], [false], FINISHED_SKIPPING) == Pass(["C3"], FINISHED_SKIPPING, false);
    assert Walk(["C2", "C3"], [false, false], "C2") == Pass(["C2", "C3"], FINISHED_SKIPPING, false);
  }

  lemma CutTwiceIsHistory()
    ensures History(CUT_TWICE) && LosesOnlyProcessed(CUT_TWICE)
  {
    ThreeItems();
    PassesOfCutTwice();
    assert Follows(CUT_TWICE, 1) && Follows(CUT_TWICE, 2) by {
      assert CUT_TWICE[0].items == CUT_TWICE[1].items == CUT_TWICE[2].items == ITEMS;
      assert ITEMS[1] == "C2" && ITEMS[2] == "C3";
    }
  }

  /** Here "C2" is processed by the first run and again by the third, because the second is cut while skipping. */
  lemma SecondCutRepeatsItem()
    ensures History(CUT_TWICE) && LosesOnlyProcessed(CUT_TWICE) && !PassOf(CUT_TWICE[2]).cut
    ensures Log(CUT_TWICE, 3) == ["C1", "C2", "C2", "C3"]
  {
    CutTwiceIsHistory();
    PassesOfCutTwice();
    assert Log(CUT_TWICE, 1) == ["C1", "C2"];
    assert Log(CUT_TWICE, 2) == ["C1", "C2"];
  }
}

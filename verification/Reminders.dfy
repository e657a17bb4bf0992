/** Splitting a daily reminder into messages that are not too long. */
module Reminders {

  const HEADER := ":bell: This is your scheduled daily reminder to take action on these PRs:"
  const TIP_1 := "\n\n:information_source: Slack command tips:"
  const TIP_2 := "\n  \U{2022}   `/revchat status` - updated report at any time"
  const TIP_3 := "\n  \U{2022}   `/revchat reminder <time in 12h or 24h format>` - change time or timezone"
  const TIP_4 := "\n  \U{2022}   `/revchat who` / `[not] my turn` / `[un]freeze` - only in PR channels"
  const TIP_5 := "\n  \U{2022}   `/revchat explain` - who needs to approve each file, and have they?"
  const TIPS := TIP_1 + TIP_2 + TIP_3 + TIP_4 + TIP_5

  const MAX_LENGTH := 4000
  const MARGIN := 325

  /** The bytes of a character in UTF-8. Lengths are compared in bytes, but messages are limited in characters. */
  function Width(c: char): nat {
    var n := c as int;
    if n < 0x80 then 1 else if n < 0x800 then 2 else if n < 0x1_0000 then 3 else 4
  }

  function Bytes(s: string): nat {
    if s == "" then 0 else Bytes(s[..|s| - 1]) + Width(s[|s| - 1])
  }

  lemma {:induction false} AtLeastAByteEach(s: string)
    ensures |s| <= Bytes(s)
  {
    if s != "" {
      AtLeastAByteEach(s[..|s| - 1]);
    }
  }

  lemma {:induction false} BytesOfConcat(a: string, b: string)
    ensures Bytes(a + b) == Bytes(a) + Bytes(b)
  {
    if b == "" {
      assert a + b == a;
    } else {
      assert (a + b)[..|a + b| - 1] == a + b[..|b| - 1];
      BytesOfConcat(a, b[..|b| - 1]);
    }
  }

  function Concat(parts: seq<string>): string {
    if parts == [] then "" else Concat(parts[..|parts| - 1]) + parts[|parts| - 1]
  }

  lemma ConcatOneMore(parts: seq<string>, p: string)
    ensures Concat(parts + [p]) == Concat(parts) + p
  {
  }

  ghost predicate AllFit(messages: seq<string>) {
    forall i :: 0 <= i < |messages| ==> |messages[i]| <= MAX_LENGTH
  }

  /** Only the last summary needs to leave room for the tips. */
  ghost predicate SummariesFit(summaries: seq<string>) {
    forall i :: 0 <= i < |summaries| ==>
                  |summaries[i]| <= if i < |summaries| - 1 then MAX_LENGTH else MAX_LENGTH - MARGIN
  }

  /** The messages that are full, and the one being written: a summary that would make it too long starts another. */
  function Written(header: string, summaries: seq<string>): (seq<string>, string) {
    if summaries == [] then ([], header)
    else
      var k := |summaries| - 1;
      var (messages, msg) := Written(header, summaries[..k]);
      if Bytes(msg) + Bytes(summaries[k]) > MAX_LENGTH - MARGIN then (messages + [msg], summaries[k])
      else (messages, msg + summaries[k])
  }

  function WithTips(written: (seq<string>, string), tips: string): seq<string> {
    written.0 + [written.1 + tips]
  }

  lemma WrittenOneMore(header: string, summaries: seq<string>, details: string)
    ensures var (messages, msg) := Written(header, summaries);
            Written(header, summaries + [details]) ==
            if Bytes(msg) + Bytes(details) > MAX_LENGTH - MARGIN then (messages + [msg], details)
            else (messages, msg + details)
  {
  }

  method SplitReminder(summaries: seq<string>) returns (messages: seq<string>)
    ensures messages == if summaries == [] then [] else WithTips(Written(HEADER, summaries), TIPS)
  {
    messages := [];
    if |summaries| == 0 {
      return;
    }
    var msg := HEADER;
    for i := 0 to |summaries|
      invariant (messages, msg) == Written(HEADER, summaries[..i])
    {
      var details := summaries[i];
      WrittenOneMore(HEADER, summaries[..i], details);
      assert summaries[..i + 1] == summaries[..i] + [details];
      if Bytes(msg) + Bytes(details) > MAX_LENGTH - MARGIN {
        messages := messages + [msg];
        msg := "";
        assert msg + details == details;
      }
      msg := msg + details;
    }
    assert summaries[..|summaries|] == summaries;
    msg := msg + TIPS;
    messages := messages + [msg];
  }

  lemma Associative<T>(a: seq<T>, b: seq<T>, c: seq<T>)
    ensures a + (b + c) == (a + b) + c
  {
  }

  /** Nothing is lost, reordered or repeated. */
  lemma {:induction false} WrittenKeepsText(header: string, summaries: seq<string>)
    ensures var (messages, msg) := Written(header, summaries);
            Concat(messages) + msg == header + Concat(summaries)
  {
    if summaries == [] {
      assert "" + header == header + "";
    } else {
      var k := |summaries| - 1;
      var (messages, msg) := Written(header, summaries[..k]);
      WrittenKeepsText(header, summaries[..k]);
      ConcatOneMore(messages, msg);
      Associative(Concat(messages), msg, summaries[k]);
      Associative(header, Concat(summaries[..k]), summaries[k]);
    }
  }

  /** Whatever the header and the tips, all messages together are header, summaries and tips. */
  lemma MessagesKeepText(header: string, summaries: seq<string>, tips: string)
    ensures Concat(WithTips(Written(header, summaries), tips)) == header + Concat(summaries) + tips
  {
    var (messages, msg) := Written(header, summaries);
    WrittenKeepsText(header, summaries);
    ConcatOneMore(messages, msg + tips);
    Associative(Concat(messages), msg, tips);
  }

  lemma AllFitOneMore(messages: seq<string>, msg: string)
    ensures AllFit(messages + [msg]) <==> AllFit(messages) && |msg| <= MAX_LENGTH
  {
    assert (messages + [msg])[|messages|] == msg;
    assert forall i :: 0 <= i < |messages| ==> (messages + [msg])[i] == messages[i];
  }

  /** The message being written only grows while it is short, and all fit so far if the summaries do by themselves. */
  lemma {:induction false} WrittenFits(header: string, summaries: seq<string>)
    requires Bytes(header) <= MAX_LENGTH - MARGIN
    ensures var (messages, msg) := Written(header, summaries);
            var n := |summaries|;
            && (Bytes(msg) <= MAX_LENGTH - MARGIN || (n > 0 && msg == summaries[n - 1]))
            && (n > 0 ==> |summaries[n - 1]| <= |msg|)
            && (AllFit(messages) && |msg| <= MAX_LENGTH <==> AllFit(summaries))
  {
    if summaries == [] {
      AtLeastAByteEach(header);
    } else {
      var k := |summaries| - 1;
      var (messages, msg) := Written(header, summaries[..k]);
      WrittenFits(header, summaries[..k]);
      assert summaries == summaries[..k] + [summaries[k]];
      AllFitOneMore(summaries[..k], summaries[k]);
      AllFitOneMore(messages, msg);
      BytesOfConcat(msg, summaries[k]);
      AtLeastAByteEach(msg + summaries[k]);
    }
  }

  /** All messages fit exactly if each summary could be a message by itself, the last one together with the tips. */
  lemma MessagesFitExactly(header: string, summaries: seq<string>, tips: string)
    requires summaries != [] && Bytes(header) <= MAX_LENGTH - MARGIN && |tips| == MARGIN
    ensures AllFit(WithTips(Written(header, summaries), tips)) <==> SummariesFit(summaries)
  {
    var (messages, msg) := Written(header, summaries);
    WrittenFits(header, summaries);
    AtLeastAByteEach(msg);
    AllFitOneMore(messages, msg + tips);
  }

  /** Summaries of at most 3675 bytes never make a message of over 4000 characters. */
  lemma ShortSummariesFit(header: string, summaries: seq<string>, tips: string)
    requires summaries != [] && Bytes(header) <= MAX_LENGTH - MARGIN && |tips| == MARGIN
    requires forall i :: 0 <= i < |summaries| ==> Bytes(summaries[i]) <= MAX_LENGTH - MARGIN
    ensures AllFit(WithTips(Written(header, summaries), tips))
  {
    forall i | 0 <= i < |summaries|
      ensures |summaries[i]| <= MAX_LENGTH - MARGIN
    {
      AtLeastAByteEach(summaries[i]);
    }
    MessagesFitExactly(header, summaries, tips);
  }

  /** The message that follows the `i`th full one. */
  function FollowedBy(messages: seq<string>, msg: string, i: nat): string
    requires i < |messages|
  {
    if i + 1 < |messages| then messages[i + 1] else msg
  }

  /** The `i`th message ended because the summary that begins the next one would have made it too long. */
  ghost predicate WasFull(summaries: seq<string>, messages: seq<string>, msg: string, i: nat)
    requires i < |messages|
  {
    exists s :: && s in summaries && s <= FollowedBy(messages, msg, i)
                && Bytes(messages[i]) + Bytes(s) > MAX_LENGTH - MARGIN
  }

  lemma StillFull(summaries: seq<string>, s: string, before: seq<string>, was: string, messages: seq<string>,
                  msg: string, i: nat)
    requires i < |before| && before <= messages && WasFull(summaries, before, was, i)
    requires FollowedBy(before, was, i) <= FollowedBy(messages, msg, i)
    ensures WasFull(summaries + [s], messages, msg, i)
  {
    var t :| && t in summaries && t <= FollowedBy(before, was, i)
             && Bytes(before[i]) + Bytes(t) > MAX_LENGTH - MARGIN;
    assert t in summaries + [s];
  }

  /** A reminder is never split before it has to be. */
  lemma {:induction false} SplitOnlyWhenFull(header: string, summaries: seq<string>, i: nat)
    requires i < |Written(header, summaries).0|
    ensures WasFull(summaries, Written(header, summaries).0, Written(header, summaries).1, i)
  {
    var k := |summaries| - 1;
    var (before, was) := Written(header, summaries[..k]);
    var (messages, msg) := Written(header, summaries);
    if i < |before| {
      SplitOnlyWhenFull(header, summaries[..k], i);
      StillFull(summaries[..k], summaries[k], before, was, messages, msg, i);
      assert summaries == summaries[..k] + [summaries[k]];
    } else {
      assert summaries[k] in summaries && summaries[k] <= msg;
    }
  }

  lemma {:induction false} AtMostFourBytesEach(s: string)
    ensures Bytes(s) <= 4 * |s|
  {
    if s != "" {
      AtMostFourBytesEach(s[..|s| - 1]);
    }
  }

  /** The actual header and tips are of the size that these lemmas ask for; the margin is just what the tips take. */
  lemma HeaderAndTipsAreAsRequired()
    ensures Bytes(HEADER) <= MAX_LENGTH - MARGIN && |TIPS| == MARGIN
  {
    assert |TIP_1| == 42 && |TIP_2| == 53 && |TIP_3| == 80 && |TIP_4| == 76 && |TIP_5| == 74;
    assert |HEADER| == 73;
    AtMostFourBytesEach(HEADER);
  }
}

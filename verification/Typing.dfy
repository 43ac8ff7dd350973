/** The typing task of a JSON connection: it forwards the first typing event of an
    episode and, after a silence or an interruption, one closing event. */
module Typing {

  /** An event and the users it goes to. */
  datatype Notice = Notice(chat: int, user: int, isTyping: bool, receivers: seq<int>)

  /** What the task waits for: a message on its channel or the end of its delay. The end
      of a list of inputs is the closed channel. */
  datatype Input = Received(notice: Notice) | Elapsed

  /** `Episode(begun, latest)`: `begun` was forwarded and `latest` is in force. */
  datatype State = Quiet | Episode(begun: Notice, latest: Notice)

  function Closing(notice: Notice): Notice {
    notice.(isTyping := false)
  }

  /** The next state and what is sent. */
  function Step(state: State, input: Input): (State, seq<Notice>) {
    match (state, input)
    case (Quiet, Elapsed) => (Quiet, [])
    case (Quiet, Received(notice)) => (Episode(notice, notice), [notice])
    case (Episode(_, latest), Elapsed) => (Quiet, [Closing(latest)])
    case (Episode(begun, _), Received(notice)) =>
      if notice.chat != begun.chat || !notice.isTyping then (Quiet, [Closing(notice)])
      else (Episode(begun, notice), [])
  }

  /** Everything sent from `state` until the channel is closed and the task has ended: an
      open episode still ends with its delay. */
  function Sent(state: State, inputs: seq<Input>): seq<Notice>
    decreases inputs
  {
    if inputs == [] then if state.Episode? then [Closing(state.latest)] else []
    else
      var (next, sent) := Step(state, inputs[0]);
      sent + Sent(next, inputs[1..])
  }

  // ---------- episodes ----------

  /** The inputs of one episode: the message that opens it and the one in force when it is
      closed. */
  datatype Span = Span(first: nat, last: nat)

  /** Between the two everything is typing in the same chat. The episode ends by a message
      that is not, by the delay, or with the inputs. */
  ghost predicate IsEpisode(inputs: seq<Input>, e: Span) {
    && e.first <= e.last < |inputs|
    && (forall k | e.first <= k <= e.last :: inputs[k].Received?)
    && (forall k | e.first < k < e.last :: Continues(inputs, e.first, k))
    && ((e.first < e.last && !Continues(inputs, e.first, e.last)) ||
        ((e.first < e.last ==> Continues(inputs, e.first, e.last)) &&
         (e.last + 1 == |inputs| || inputs[e.last + 1].Elapsed?)))
  }

  ghost predicate Continues(inputs: seq<Input>, first: nat, k: nat)
    requires first < |inputs| && k < |inputs| && inputs[first].Received? && inputs[k].Received?
  {
    inputs[k].notice.chat == inputs[first].notice.chat && inputs[k].notice.isTyping
  }

  /** For each episode the message that opened it and the closing of the one in force. */
  ghost function Announced(inputs: seq<Input>, spans: seq<Span>): seq<Notice>
    requires forall e | 0 <= e < |spans| :: IsEpisode(inputs, spans[e])
  {
    if spans == [] then []
    else
      assert IsEpisode(inputs, spans[0]);
      [inputs[spans[0].first].notice, Closing(inputs[spans[0].last].notice)] + Announced(inputs, spans[1..])
  }

  /** The episodes in the inputs from `i` on, in order; every message is in one. */
  ghost predicate Episodes(inputs: seq<Input>, i: nat, spans: seq<Span>) {
    && (forall e | 0 <= e < |spans| :: i <= spans[e].first && IsEpisode(inputs, spans[e]))
    && (forall e, f | 0 <= e < f < |spans| :: spans[e].last < spans[f].first)
    && (forall k | i <= k < |inputs| && inputs[k].Received? :: Covered(spans, k))
  }

  ghost predicate Covered(spans: seq<Span>, k: nat) {
    exists e :: 0 <= e < |spans| && spans[e].first <= k <= spans[e].last
  }

  /** The whole output is a sequence of closed episodes: openings and closings alternate,
      and none is left open when the task ends. */
  lemma {:induction false} EpisodesAreClosed(inputs: seq<Input>) returns (spans: seq<Span>)
    ensures Episodes(inputs, 0, spans) && Sent(Quiet, inputs) == Announced(inputs, spans)
  {
    spans := EpisodesFrom(inputs, 0);
    assert inputs[0..] == inputs;
  }

  lemma {:induction false} EpisodesFrom(inputs: seq<Input>, i: nat) returns (spans: seq<Span>)
    requires i <= |inputs|
    ensures Episodes(inputs, i, spans) && Sent(Quiet, inputs[i..]) == Announced(inputs, spans)
    decreases |inputs| - i
  {
    if i == |inputs| {
      spans := [];
    } else if inputs[i].Elapsed? {
      assert inputs[i..][1..] == inputs[i + 1..];
      spans := EpisodesFrom(inputs, i + 1);
      var rest := Sent(Quiet, inputs[i + 1..]);
      assert [] + rest == rest;
    } else {
      assert inputs[i..][1..] == inputs[i + 1..];
      var last, next := EpisodeEnds(inputs, i, i);
      var later := EpisodesFrom(inputs, next);
      spans := [Span(i, last)] + later;
      EpisodeFirst(inputs, i, last, next, later);
      assert spans[1..] == later;
      var closing, rest := [Closing(inputs[last].notice)], Sent(Quiet, inputs[next..]);
      assert [inputs[i].notice] + (closing + rest) == [inputs[i].notice, Closing(inputs[last].notice)] + rest;
    }
  }

  lemma {:induction false} EpisodeFirst(inputs: seq<Input>, i: nat, last: nat, next: nat, later: seq<Span>)
    requires i <= last < next <= |inputs| && IsEpisode(inputs, Span(i, last)) && Episodes(inputs, next, later)
    requires forall k | last < k < next :: inputs[k].Elapsed?
    ensures Episodes(inputs, i, [Span(i, last)] + later)
  {
    hide IsEpisode;
    var spans := [Span(i, last)] + later;
    assert spans[0] == Span(i, last);
    forall e | 0 < e < |spans| ensures next <= spans[e].first && IsEpisode(inputs, spans[e]) {
      assert spans[e] == later[e - 1];
    }
    forall e, f | 0 < e < f < |spans| ensures spans[e].last < spans[f].first {
      assert spans[e] == later[e - 1] && spans[f] == later[f - 1];
    }
    forall k | i <= k < |inputs| && inputs[k].Received? ensures Covered(spans, k) {
      if k <= last {
        assert spans[0].first <= k <= spans[0].last;
      } else {
        assert Covered(later, k);
        var e :| 0 <= e < |later| && later[e].first <= k <= later[e].last;
        assert spans[e + 1] == later[e];
      }
    }
  }

  /** From inside an episode to its end. */
  lemma {:induction false} EpisodeEnds(inputs: seq<Input>, first: nat, i: nat) returns (last: nat, next: nat)
    requires first <= i < |inputs| && forall k | first <= k <= i :: inputs[k].Received?
    requires forall k | first < k <= i :: Continues(inputs, first, k)
    ensures i <= last < next <= |inputs| && IsEpisode(inputs, Span(first, last))
    ensures forall k | last < k < next :: inputs[k].Elapsed?
    ensures Sent(Episode(inputs[first].notice, inputs[i].notice), inputs[i + 1..])
         == [Closing(inputs[last].notice)] + Sent(Quiet, inputs[next..])
    decreases |inputs| - i
  {
    if i + 1 == |inputs| {
      last, next := i, i + 1;
    } else {
      assert inputs[i + 1..][1..] == inputs[i + 2..];
      if inputs[i + 1].Elapsed? {
        last, next := i, i + 2;
      } else if !Continues(inputs, first, i + 1) {
        last, next := i + 1, i + 2;
      } else {
        last, next := EpisodeEnds(inputs, first, i + 1);
        var rest := Sent(Episode(inputs[first].notice, inputs[i + 1].notice), inputs[i + 2..]);
        assert [] + rest == rest;
      }
    }
  }

  /** Typing in the same chat inside an episode sends nothing. */
  lemma {:induction false} SameChatTypingIsSilent(begun: Notice, latest: Notice, more: seq<Notice>, inputs: seq<Input>)
    requires forall i | 0 <= i < |more| :: more[i].chat == begun.chat && more[i].isTyping
    ensures var last := if more == [] then latest else more[|more| - 1];
            Sent(Episode(begun, latest), Messages(more) + inputs) == Sent(Episode(begun, last), inputs)
    decreases more
  {
    if more == [] {
      assert Messages(more) + inputs == inputs;
    } else {
      var all := Messages(more) + inputs;
      assert all[0] == Received(more[0]) && all[1..] == Messages(more[1..]) + inputs;
      SameChatTypingIsSilent(begun, more[0], more[1..], inputs);
      assert [] + Sent(Episode(begun, more[0]), all[1..]) == Sent(Episode(begun, more[0]), all[1..]);
    }
  }

  function Messages(notices: seq<Notice>): seq<Input> {
    seq(|notices|, i requires 0 <= i < |notices| => Received(notices[i]))
  }

  // ---------- what receivers see ----------

  /** Whether the last notice about this chat to this receiver says that someone types. */
  predicate ShowsTyping(sent: seq<Notice>, chat: int, receiver: int) {
    if sent == [] then false
    else
      var last := sent[|sent| - 1];
      if last.chat == chat && receiver in last.receivers then last.isTyping
      else ShowsTyping(sent[..|sent| - 1], chat, receiver)
  }

  ghost predicate NobodyShowsTyping(sent: seq<Notice>) {
    forall chat, receiver :: !ShowsTyping(sent, chat, receiver)
  }

  /** At every moment from here on at which the task is idle, and when it ends, no
      receiver is left with a typing indicator; `sent` is what went out before. */
  ghost predicate QuietWheneverIdle(state: State, sent: seq<Notice>, inputs: seq<Input>)
    decreases inputs
  {
    (state.Quiet? ==> NobodyShowsTyping(sent)) &&
    if inputs == [] then NobodyShowsTyping(sent + Sent(state, []))
    else QuietWheneverIdle(Step(state, inputs[0]).0, sent + Step(state, inputs[0]).1, inputs[1..])
  }

  /** The closing notice reaches everyone who was told that typing began. */
  predicate Reaches(begun: Notice, closing: Notice) {
    begun.isTyping ==> forall r | r in begun.receivers :: closing.chat == begun.chat && r in closing.receivers
  }

  /** The condition on the inputs: whichever message is in force when an episode ends is
      about the chat that begun it and goes at least to the same receivers. */
  predicate EveryEpisodeReachesItsReceivers(state: State, inputs: seq<Input>)
    decreases inputs
  {
    if inputs == [] then state.Episode? ==> Reaches(state.begun, state.latest)
    else
      (match (state, inputs[0])
       case (Episode(begun, latest), Elapsed) => Reaches(begun, latest)
       case (Episode(begun, _), Received(notice)) =>
         notice.chat != begun.chat || !notice.isTyping ==> Reaches(begun, notice)
       case _ => true) &&
      EveryEpisodeReachesItsReceivers(Step(state, inputs[0]).0, inputs[1..])
  }

  lemma {:induction false} ShowsLast(sent: seq<Notice>, last: Notice, chat: int, receiver: int)
    ensures ShowsTyping(sent + [last], chat, receiver)
         == if last.chat == chat && receiver in last.receivers then last.isTyping
            else ShowsTyping(sent, chat, receiver)
  {
    assert (sent + [last])[..|sent|] == sent;
  }

  lemma {:induction false} ClosingQuietens(before: seq<Notice>, begun: Notice, closing: Notice)
    requires NobodyShowsTyping(before)
    ensures NobodyShowsTyping(before + [begun] + [Closing(closing)]) <==> Reaches(begun, closing)
  {
    var sent := before + [begun] + [Closing(closing)];
    forall chat, receiver
      ensures ShowsTyping(sent, chat, receiver)
        <==> !(closing.chat == chat && receiver in closing.receivers) &&
             begun.chat == chat && receiver in begun.receivers && begun.isTyping
    {
      ShowsLast(before + [begun], Closing(closing), chat, receiver);
      ShowsLast(before, begun, chat, receiver);
    }
    if !Reaches(begun, closing) {
      var r :| r in begun.receivers && !(closing.chat == begun.chat && r in closing.receivers);
      assert ShowsTyping(sent, begun.chat, r);
    }
  }

  /** What is known of the notices sent so far in a state. */
  ghost predicate History(state: State, before: seq<Notice>, sent: seq<Notice>) {
    NobodyShowsTyping(before) && sent == if state.Quiet? then before else before + [state.begun]
  }

  /** Exactly when no receiver is ever left with a stale indicator: for every list of
      inputs, the task leaves nobody shown as typing at its idle moments if and only if
      each closing notice reaches whoever its episode's opening reached. */
  lemma {:induction false} NoStaleIndicator(state: State, before: seq<Notice>, sent: seq<Notice>, inputs: seq<Input>)
    requires History(state, before, sent)
    ensures QuietWheneverIdle(state, sent, inputs) <==> EveryEpisodeReachesItsReceivers(state, inputs)
    decreases inputs
  {
    if inputs == [] {
      if state.Quiet? {
        assert sent + [] == sent;
      } else {
        ClosingQuietens(before, state.begun, state.latest);
      }
    } else {
      var (next, more) := Step(state, inputs[0]);
      var now := sent + more;
      match (state, next)
      case (Quiet, Quiet) =>
        assert now == sent;
        NoStaleIndicator(next, before, now, inputs[1..]);
      case (Quiet, Episode(_, _)) =>
        NoStaleIndicator(next, before, now, inputs[1..]);
      case (Episode(_, _), Episode(_, _)) =>
        assert now == sent;
        NoStaleIndicator(next, before, now, inputs[1..]);
      case (Episode(begun, latest), Quiet) =>
        var closing := if inputs[0].Elapsed? then latest else inputs[0].notice;
        ClosingQuietens(before, begun, closing);
        if Reaches(begun, closing) {
          NoStaleIndicator(next, now, now, inputs[1..]);
        }
    }
  }

  /** In particular a run about one chat with fixed receivers leaves nobody shown as typing. */
  lemma {:induction false} OneChatIsQuiet(chat: int, receivers: seq<int>, inputs: seq<Input>)
    requires forall i | 0 <= i < |inputs| && inputs[i].Received? ::
               inputs[i].notice.chat == chat && inputs[i].notice.receivers == receivers
    ensures QuietWheneverIdle(Quiet, [], inputs)
  {
    OneChatReaches(Quiet, chat, receivers, inputs);
    NoStaleIndicator(Quiet, [], [], inputs);
  }

  lemma {:induction false} OneChatReaches(state: State, chat: int, receivers: seq<int>, inputs: seq<Input>)
    requires forall i | 0 <= i < |inputs| && inputs[i].Received? ::
               inputs[i].notice.chat == chat && inputs[i].notice.receivers == receivers
    requires state.Episode? ==> state.begun.chat == state.latest.chat == chat
    requires state.Episode? ==> state.begun.receivers == state.latest.receivers == receivers
    ensures EveryEpisodeReachesItsReceivers(state, inputs)
    decreases inputs
  {
    if inputs != [] {
      OneChatReaches(Step(state, inputs[0]).0, chat, receivers, inputs[1..]);
    }
  }

  /** Typing in one chat and then in another: the first receiver keeps the indicator. */
  lemma {:induction false} TwoChatsExample()
    ensures var inputs := [Received(Notice(1, 9, true, [7])), Received(Notice(2, 9, true, [8]))];
            Sent(Quiet, inputs) == [Notice(1, 9, true, [7]), Notice(2, 9, false, [8])] &&
            ShowsTyping(Sent(Quiet, inputs), 1, 7)
  {
    var a, b := Received(Notice(1, 9, true, [7])), Received(Notice(2, 9, true, [8]));
    assert [a, b][1..] == [b] && [b][1..] == [];
    var sent := [Notice(1, 9, true, [7]), Notice(2, 9, false, [8])];
    assert sent[..1] == [Notice(1, 9, true, [7])];
  }

  // ---------- the task ----------

  method SendEvent(notice: Notice, sent: seq<Notice>) returns (r: seq<Notice>)
    ensures r == sent + [notice]
  {
    r := sent + [notice];
  }

  /** The next input moves what it sends from the future to the past. */
  lemma {:induction false} Advance(all: seq<Notice>, sent: seq<Notice>, state: State, inputs: seq<Input>, i: nat)
    requires i < |inputs| && sent + Sent(state, inputs[i..]) == all
    ensures var (next, more) := Step(state, inputs[i]);
            sent + more + Sent(next, inputs[i + 1..]) == all
  {
    assert inputs[i..][1..] == inputs[i + 1..];
    var (next, more) := Step(state, inputs[i]);
    assert sent + (more + Sent(next, inputs[i + 1..])) == sent + more + Sent(next, inputs[i + 1..]);
  }

  /** The two nested loops of the task. A delay that ends while the task is idle is not
      noticed; a closed channel inside an episode leaves the delay to end it. */
  method TypingRecvTask(inputs: seq<Input>) returns (sent: seq<Notice>)
    ensures sent == Sent(Quiet, inputs)
  {
    sent := [];
    ghost var all := Sent(Quiet, inputs);
    assert inputs[0..] == inputs && [] + all == all;
    var i := 0;
    while i < |inputs|
      invariant i <= |inputs| && sent + Sent(Quiet, inputs[i..]) == all
    {
      Advance(all, sent, Quiet, inputs, i);
      var input := inputs[i];
      i := i + 1;
      if input.Elapsed? {
        assert sent + [] == sent;
        continue;
      }
      sent := SendEvent(input.notice, sent);
      i, sent := InnerLoop(all, input.notice, inputs, i, sent);
    }
    assert inputs[i..] == [] && sent + [] == sent;
  }

  /** From the opening of an episode to its closing notice. */
  method InnerLoop(ghost all: seq<Notice>, begun: Notice, inputs: seq<Input>, start: nat, before: seq<Notice>)
    returns (i: nat, sent: seq<Notice>)
    requires start <= |inputs| && before + Sent(Episode(begun, begun), inputs[start..]) == all
    ensures start <= i <= |inputs| && sent + Sent(Quiet, inputs[i..]) == all
  {
    var lastChatId := begun.chat;
    var msg := begun;
    i, sent := start, before;
    while true
      invariant start <= i <= |inputs| && sent + Sent(Episode(begun, msg), inputs[i..]) == all
      decreases |inputs| - i
    {
      if i == |inputs| {
        assert inputs[i..] == [] && sent + [Closing(msg)] + [] == sent + [Closing(msg)];
        sent := SendEvent(Closing(msg), sent);
        return;
      }
      Advance(all, sent, Episode(begun, msg), inputs, i);
      var input := inputs[i];
      i := i + 1;
      if input.Elapsed? {
        sent := SendEvent(Closing(msg), sent);
        return;
      }
      msg := input.notice;
      if msg.chat != lastChatId || !msg.isTyping {
        sent := SendEvent(Closing(msg), sent);
        return;
      }
      assert sent + [] == sent;
    }
  }
}

/**
 Which messages a run consumes: on each channel the messages the server sent, each at most
 once and in the order they were sent, however they were grouped into batches.
 */
module Delivery {
  import opened Decimal
  import opened Reception
  import opened Handshake

  /** The messages a channel delivers, up to the first batch that cannot be read. */
  function Flatten(bs: seq<Batch>): seq<string> {
    if bs == [] || bs[0].Rejected? then [] else bs[0].ms + Flatten(bs[1..])
  }

  /** Everything the server sends. */
  datatype Streams = Streams(control: seq<string>, data: seq<string>) {
    function Of(side: Side): seq<string> {
      if side == Control then control else data
    }
  }

  /** A message is consumed, and a token kept, from the message the event says. */
  predicate Genuine(e: Event, all: Streams) {
    && (e.Got? || e.Took? ==> e.index < |all.Of(e.side)|)
    && (e.Got? ==> e.text == all.Of(e.side)[e.index])
    && (e.Took? && |all.Of(e.side)[e.index]| >= 2 ==> e.token == all.Of(e.side)[e.index][2..])
  }

  /** Events `i` and `j` do not consume messages of one channel out of order. */
  predicate Ordered(log: seq<Event>, i: nat, j: nat)
    requires i < |log| && j < |log|
  {
    log[i].Got? && log[j].Got? && log[i].side == log[j].side ==> log[i].index < log[j].index
  }

  ghost predicate InSequence(log: seq<Event>, all: Streams) {
    && (forall i: nat :: i < |log| ==> Genuine(log[i], all))
    && (forall i: nat, j: nat :: i < j < |log| ==> Ordered(log, i, j))
  }

  // ---- The cursor ---------------------------------------------------------------------------

  /** The number of the first message of a channel that can still be consumed. */
  function Position(s: State, side: Side): nat {
    if s.view.side == side then s.view.base + s.view.next else s.InboxOf(side).used
  }

  /** The buffer holds the last batch read from its channel. */
  predicate Consistent(s: State) {
    s.view.next <= |s.view.ms| && s.view.base + |s.view.ms| == s.InboxOf(s.view.side).used
  }

  /** The buffer and the batches to come hold the messages they say. */
  predicate Holds(s: State, all: Streams) {
    && Consistent(s)
    && s.control.used <= |all.control| && Flatten(s.control.batches) == all.control[s.control.used..]
    && s.data.used <= |all.data| && Flatten(s.data.batches) == all.data[s.data.used..]
    && s.view.ms == all.Of(s.view.side)[s.view.base..][..|s.view.ms|]
  }

  /** Whatever has been consumed lies before the cursor. */
  ghost predicate Past(s: State, all: Streams) {
    && InSequence(s.log, all)
    && forall e :: e in s.log && e.Got? ==> e.index < Position(s, e.side)
  }

  ghost predicate Faithful(s: State, all: Streams) {
    Holds(s, all) && Past(s, all)
  }

  ghost predicate RunFaithful(r: Run<State>, all: Streams) {
    match r
    case Going(s) => Faithful(s, all)
    case Stopped(log) => InSequence(log, all)
  }

  /** Sends, tokens and reports consume nothing. */
  lemma NotedInSequence(log: seq<Event>, e: Event, all: Streams)
    requires InSequence(log, all) && !e.Got? && Genuine(e, all)
    ensures InSequence(log + [e], all)
  {
    var more := log + [e];
    forall i: nat | i < |more|
      ensures Genuine(more[i], all)
    {
      assert i < |log| ==> Genuine(log[i], all);
    }
    forall i: nat, j: nat | i < j < |more|
      ensures Ordered(more, i, j)
    {
      assert j < |log| ==> Ordered(log, i, j);
    }
  }

  lemma SayFaithful(s: State, side: Side, text: string, all: Streams)
    requires Faithful(s, all)
    ensures Faithful(Say(s, side, text), all)
  {
    hide InSequence, Flatten;
    NotedInSequence(s.log, Sent(side, text), all);
  }

  lemma FirstBatch(bs: seq<Batch>, stream: seq<string>, used: nat)
    requires bs != [] && bs[0].Messages? && used <= |stream| && Flatten(bs) == stream[used..]
    ensures var ms := bs[0].ms;
            && used + |ms| <= |stream| && ms == stream[used..][..|ms|]
            && Flatten(bs[1..]) == stream[used + |ms|..]
  {
    var ms := bs[0].ms;
    assert Flatten(bs) == ms + Flatten(bs[1..]);
    assert stream[used..][|ms|..] == stream[used + |ms|..];
  }

  lemma ReceiveHolds(s: State, side: Side, all: Streams)
    requires Holds(s, all)
    ensures var r := Receive(s, side);
            && (r.Going? ==> Holds(r.value, all) && r.value.log == s.log
                             && forall d: Side :: Position(s, d) <= Position(r.value, d))
            && (r.Stopped? ==> r.log == s.log + [Reported(side)])
  {
    hide Flatten;
    var inbox := s.InboxOf(side);
    if inbox.batches != [] && inbox.batches[0].Messages? {
      FirstBatch(inbox.batches, all.Of(side), inbox.used);
    }
  }

  /** A batch is read behind what has been consumed, even where it overwrites what has not. */
  lemma ReceiveFaithful(s: State, side: Side, all: Streams)
    requires Faithful(s, all)
    ensures RunFaithful(Receive(s, side), all)
    ensures RunFaithful(ReceiveIfEmpty(s, side), all)
  {
    hide InSequence, Holds, Position, Receive;
    ReceiveHolds(s, side, all);
    NotedInSequence(s.log, Reported(side), all);
  }

  /** The cursor denotes the first message of its channel that has not been consumed. */
  lemma AdvanceFaithful(s: State, all: Streams)
    requires Faithful(s, all) && !s.Empty()
    ensures Faithful(Advance(s), all)
    ensures var stream, next := all.Of(s.view.side), Position(s, s.view.side);
            next < |stream| && s.Current() == stream[next]
  {
    hide Flatten;
    var e := Got(s.view.side, s.view.base + s.view.next, s.Current());
    var more := s.log + [e];
    assert s.Current() == all.Of(s.view.side)[s.view.base..][s.view.next];
    forall i: nat | i < |more|
      ensures Genuine(more[i], all)
    {
      assert i < |s.log| ==> Genuine(s.log[i], all);
    }
    forall i: nat, j: nat | i < j < |more|
      ensures Ordered(more, i, j)
    {
      assert s.log[i] in s.log;
      assert j < |s.log| ==> Ordered(s.log, i, j);
    }
  }

  lemma TokenFaithful(s: State, token: string, all: Streams)
    requires Faithful(s, all)
    ensures Faithful(s.(token := token), all)
  {
  }

  /** The token at the start of the buffer comes from the message there. */
  lemma TookFaithful(s: State, all: Streams)
    requires Faithful(s, all) && !s.Empty()
    ensures var token := TwoBehind(s.view.ms, 0);
            Faithful(s.(token := token, log := s.log + [Took(s.view.side, s.view.base, token)]), all)
  {
    hide InSequence, Flatten;
    assert s.view.ms[0] == all.Of(s.view.side)[s.view.base..][0];
    NotedInSequence(s.log, Took(s.view.side, s.view.base, TwoBehind(s.view.ms, 0)), all);
  }

  // ---- Steps --------------------------------------------------------------------------------

  lemma ExpectFaithful(s: State, side: Side, expected: string, all: Streams)
    requires Faithful(s, all)
    ensures RunFaithful(Expect(s, side, expected), all)
  {
    hide InSequence, Holds, Position, Passes, Advance;
    NotedInSequence(s.log, Reported(side), all);
    if !s.Empty() {
      AdvanceFaithful(s, all);
    }
  }

  lemma ExpectTokensFaithful(s: State, side: Side, letter: char, all: Streams)
    requires Faithful(s, all)
    ensures RunFaithful(ExpectToken(s, side, letter), all)
    ensures RunFaithful(ExpectFirstToken(s, side, letter), all)
  {
    hide Faithful, InSequence, Prefixed, IsError, Advance, TwoBehind;
    LogInSequence(s, all);
    NotedInSequence(s.log, Reported(side), all);
    if !s.Empty() {
      TokenFaithful(s, TwoBehind(s.view.ms, s.view.next), all);
      AdvanceFaithful(s.(token := TwoBehind(s.view.ms, s.view.next)), all);
      var token := TwoBehind(s.view.ms, 0);
      var log := s.log + [Took(s.view.side, s.view.base, token)];
      TookFaithful(s, all);
      AdvanceFaithful(s.(token := token, log := log), all);
    }
  }

  lemma LogInSequence(s: State, all: Streams)
    requires Faithful(s, all)
    ensures InSequence(s.log, all)
  {
  }

  lemma AwaitFaithful(s: State, side: Side, expected: string, all: Streams)
    requires Faithful(s, all)
    ensures RunFaithful(AwaitFresh(s, side, expected), all)
    ensures RunFaithful(Await(s, side, expected), all)
  {
    hide Faithful, InSequence, Receive, ReceiveIfEmpty, Expect;
    ReceiveFaithful(s, side, all);
    var r, q := Receive(s, side), ReceiveIfEmpty(s, side);
    if r.Going? {
      ExpectFaithful(r.value, side, expected, all);
    }
    if q.Going? {
      ExpectFaithful(q.value, side, expected, all);
    }
  }

  lemma AwaitTokensFaithful(s: State, side: Side, letter: char, all: Streams)
    requires Faithful(s, all)
    ensures RunFaithful(AwaitToken(s, side, letter), all)
    ensures RunFaithful(AwaitFirstToken(s, side, letter), all)
  {
    hide Faithful, InSequence, Receive, ReceiveIfEmpty, ExpectToken, ExpectFirstToken;
    ReceiveFaithful(s, side, all);
    var r := ReceiveIfEmpty(s, side);
    if r.Going? {
      ExpectTokensFaithful(r.value, side, letter, all);
    }
  }

  // ---- Phases -------------------------------------------------------------------------------

  lemma GreetFaithful(u: User, s: State, all: Streams)
    requires Faithful(s, all)
    ensures RunFaithful(Greet(u, s), all)
  {
    hide Faithful, InSequence, Say, AwaitFresh, AwaitToken, With, Print, CLIENT_HELLO, SERVER_HELLO;
    SayFaithful(s, Control, CLIENT_HELLO, all);
    AwaitFaithful(Say(s, Control, CLIENT_HELLO), Control, SERVER_HELLO, all);
    var r1 := AwaitFresh(Say(s, Control, CLIENT_HELLO), Control, SERVER_HELLO);
    if r1.Going? {
      SayFaithful(r1.value, Control, With('C', u.nick), all);
      var s1 := Say(r1.value, Control, With('C', u.nick));
      AwaitTokensFaithful(s1, Control, 'S', all);
      var r2 := AwaitToken(s1, Control, 'S');
      if r2.Going? {
        SayFaithful(r2.value, Control, With('C', Print(u.port)), all);
      }
    }
  }

  lemma EchoFaithful(u: User, s: State, all: Streams)
    requires Faithful(s, all)
    ensures RunFaithful(Echo(u, s), all)
  {
    hide Faithful, InSequence, Say, AwaitFresh, Await, With, DATA_HELLO;
    AwaitFaithful(s, Data, DATA_HELLO, all);
    var r1 := AwaitFresh(s, Data, DATA_HELLO);
    if r1.Going? {
      SayFaithful(r1.value, Data, With('D', u.nick), all);
      AwaitFaithful(Say(r1.value, Data, With('D', u.nick)), Data, With('T', r1.value.token), all);
      SayToken(r1.value, Data, With('D', u.nick));
    }
  }

  lemma SayToken(s: State, side: Side, text: string)
    ensures Say(s, side, text).token == s.token
  {
  }

  lemma HandOverFaithful(u: User, s: State, all: Streams)
    requires Faithful(s, all)
    ensures RunFaithful(HandOver(u, s), all)
  {
    hide Faithful, InSequence, Say, AwaitFirstToken, With;
    SayFaithful(s, Data, With('D', u.msg), all);
    AwaitTokensFaithful(Say(s, Data, With('D', u.msg)), Data, 'T', all);
  }

  lemma FinishFaithful(u: User, s: State, all: Streams)
    requires Faithful(s, all)
    ensures RunFaithful(Finish(u, s), all)
  {
    hide Faithful, InSequence, Say, Await, With, Print, ACK;
    AwaitFaithful(s, Control, With('S', Print(|u.msg|)), all);
    var r1 := Await(s, Control, With('S', Print(|u.msg|)));
    if r1.Going? {
      var text := With('C', r1.value.token);
      SayFaithful(r1.value, Control, text, all);
      AwaitFaithful(Say(r1.value, Control, text), Control, ACK, all);
    }
  }

  lemma StartFaithful(control: seq<Batch>, data: seq<Batch>)
    ensures Faithful(Start(control, data), Streams(Flatten(control), Flatten(data)))
  {
  }

  /**
   Every run, however it ends and whatever the server sends, consumes messages that the
   server sent on the channel it says, under their own numbers, and never one that does not
   come after all those consumed before it on that channel. A data token is kept from the
   message whose number the event records.
   */
  lemma ConsumesInSequence(u: User, control: seq<Batch>, data: seq<Batch>)
    ensures InSequence(Log(Session(u, Start(control, data))), Streams(Flatten(control), Flatten(data)))
  {
    hide Faithful, InSequence, Flatten, Greet, Echo, HandOver, Finish, Start;
    var all := Streams(Flatten(control), Flatten(data));
    var s := Start(control, data);
    StartFaithful(control, data);
    GreetFaithful(u, s, all);
    var r1 := Greet(u, s);
    if r1.Going? {
      EchoFaithful(u, r1.value, all);
      var r2 := Echo(u, r1.value);
      if r2.Going? {
        HandOverFaithful(u, r2.value, all);
        var r3 := HandOver(u, r2.value);
        if r3.Going? {
          FinishFaithful(u, r3.value, all);
          FaithfulLog(Finish(u, r3.value), all);
        }
      }
    }
  }

  lemma FaithfulLog(r: Run<State>, all: Streams)
    requires RunFaithful(r, all)
    ensures InSequence(Log(r), all)
  {
  }

  /**
   Safety in terms of what the server sends: when the message goes out, the second data
   message has repeated the token of the second control message, if and only if neither of
   the two starts like an error report.
   */
  lemma TokenRepeatedIff(u: User, control: seq<Batch>, data: seq<Batch>)
    ensures var log, c, d := Log(Session(u, Start(control, data))), Flatten(control), Flatten(data);
            |log| > 8 && log[8].Sent? ==>
              && |c| > 1 && |d| > 1 && log[3].Got? && log[3].text == c[1] && log[7].Got? && log[7].text == d[1]
              && (TokenRepeated(c[1], d[1]) <==> !IsError(c[1]) && !IsError(d[1]))
  {
    hide Session, Start, Flatten, TokenRepeated, IsError;
    TokenEchoedBeforeMessage(u, control, data);
    ConsumesInSequence(u, control, data);
    var log := Log(Session(u, Start(control, data)));
    if |log| > 8 && log[8].Sent? {
      assert Genuine(log[3], Streams(Flatten(control), Flatten(data)));
      assert Genuine(log[7], Streams(Flatten(control), Flatten(data)));
    }
  }
}

/** With the boundaries of a lock-step server no message is skipped, however the run ends. */
module Lossless {
  import opened Batching
  import opened Completion
  import opened Decimal
  import opened Delivery
  import opened Handshake
  import opened Reception

  predicate ConsumedOn(e: Event, side: Side) {
    e.Got? && e.side == side
  }

  /** How many messages of a channel a log consumes. */
  function Taken(log: seq<Event>, side: Side): nat {
    if log == [] then 0
    else
      var last := |log| - 1;
      Taken(log[..last], side) + if ConsumedOn(log[last], side) then 1 else 0
  }

  /** Event `i`, if it consumes a message, consumes the next one of its channel. */
  predicate TakesNext(log: seq<Event>, i: nat)
    requires i < |log|
  {
    log[i].Got? ==> log[i].index == Taken(log[..i], log[i].side)
  }

  ghost predicate Numbered(log: seq<Event>) {
    forall i: nat :: i < |log| ==> TakesNext(log, i)
  }

  /** Whatever has been delivered before the cursor has been consumed. */
  ghost predicate InStep(s: State) {
    && Coherent(s) && Numbered(s.log)
    && forall d: Side :: Position(s, d) == Taken(s.log, d)
  }

  ghost predicate RunInStep(r: Run<State>) {
    match r
    case Going(s) => InStep(s)
    case Stopped(log) => Numbered(log)
  }

  lemma Appended(log: seq<Event>, e: Event)
    requires Numbered(log) && (e.Got? ==> e.index == Taken(log, e.side))
    ensures Numbered(log + [e])
    ensures forall d: Side :: Taken(log + [e], d) == Taken(log, d) + if ConsumedOn(e, d) then 1 else 0
  {
    var more := log + [e];
    assert more[..|log|] == log;
    forall i: nat | i < |more|
      ensures TakesNext(more, i)
    {
      if i < |log| {
        assert TakesNext(log, i) && more[..i] == log[..i];
      }
    }
  }

  lemma SayInStep(s: State, side: Side, text: string)
    requires InStep(s)
    ensures InStep(Say(s, side, text)) && Say(s, side, text).view == s.view
    ensures Say(s, side, text).token == s.token
  {
    hide Coherent, Numbered, Taken, Position, Stream, Ahead;
    SayKeeps(s, side, text);
    Appended(s.log, Sent(side, text));
  }

  lemma SteppedInStep(s: State, a: State, side: Side, log: seq<Event>)
    requires Coherent(s) && Stepped(s, a, side) && Numbered(log) && a.log == log + [NextGot(s, side)]
    requires forall d: Side :: Position(s, d) == Taken(log, d)
    ensures InStep(a) && a.view.side == side
  {
    hide Coherent, Numbered, Taken, Position, Stream, Ahead;
    Appended(log, NextGot(s, side));
    forall d: Side
      ensures Position(a, d) == Taken(a.log, d)
    {
      assert d == side || d == Other(side);
    }
  }

  lemma AwaitInStep(s: State, side: Side, expected: string)
    requires InStep(s) && RightSide(s, side)
    ensures var r := Await(s, side, expected);
            RunInStep(r) && (r.Going? ==> r.value.view.side == side)
  {
    hide Coherent, Numbered, Taken, Position, Stream, Ahead, Stepped, ReceiveIfEmpty, Expect, Passes;
    ExpectSteps(s, side, expected);
    Appended(s.log, Reported(side));
    var r := Await(s, side, expected);
    if r.Going? {
      SteppedInStep(s, r.value, side, s.log);
    }
  }

  lemma FreshInStep(s: State, side: Side, expected: string)
    requires InStep(s) && s.Empty()
    ensures var r := AwaitFresh(s, side, expected);
            RunInStep(r) && (r.Going? ==> r.value.view.side == side)
  {
    hide InStep, RunInStep, ReceiveIfEmpty, Receive, Expect;
    ReceiveWhenEmpty(s, side);
    AwaitInStep(s, side, expected);
  }

  lemma TokenInStep(s: State, side: Side, letter: char)
    requires InStep(s) && RightSide(s, side)
    ensures var r := AwaitToken(s, side, letter);
            RunInStep(r) && (r.Going? ==> r.value.view.side == side)
  {
    hide Coherent, Numbered, Taken, Position, Stream, Ahead, Stepped, ReceiveIfEmpty, ExpectToken, Prefixed, IsError;
    ExpectTokenSteps(s, side, letter);
    Appended(s.log, Reported(side));
    var r := AwaitToken(s, side, letter);
    if r.Going? {
      SteppedInStep(s, r.value, side, s.log);
    }
  }

  lemma FirstTokenInStep(s: State, side: Side, letter: char)
    requires InStep(s) && RightSide(s, side)
    ensures var r := AwaitFirstToken(s, side, letter);
            RunInStep(r) && (r.Going? ==> r.value.view.side == side)
  {
    hide Coherent, Numbered, Taken, Position, Stream, Ahead, Stepped, ReceiveIfEmpty, ExpectFirstToken, Prefixed,
         IsError;
    ExpectFirstTokenSteps(s, side, letter);
    Appended(s.log, Reported(side));
    var r := AwaitFirstToken(s, side, letter);
    if r.Going? {
      var taken := Took(side, Position(s, side) - (if s.Empty() then 0 else s.view.next), r.value.token);
      Appended(s.log, taken);
      SteppedInStep(s, r.value, side, s.log + [taken]);
    }
  }

  // ---- The phases ---------------------------------------------------------------------------

  lemma GreetInStep(u: User, s: State)
    requires InStep(s) && s.Empty()
    ensures RunInStep(Greet(u, s))
  {
    hide InStep, Say, AwaitFresh, AwaitToken, With, Print;
    SayInStep(s, Control, CLIENT_HELLO);
    var s1 := Say(s, Control, CLIENT_HELLO);
    FreshInStep(s1, Control, SERVER_HELLO);
    var r1 := AwaitFresh(s1, Control, SERVER_HELLO);
    if r1.Going? {
      SayInStep(r1.value, Control, With('C', u.nick));
      var s2 := Say(r1.value, Control, With('C', u.nick));
      TokenInStep(s2, Control, 'S');
      var r2 := AwaitToken(s2, Control, 'S');
      if r2.Going? {
        SayInStep(r2.value, Control, With('C', Print(u.port)));
      }
    }
  }

  lemma EchoInStep(u: User, s: State)
    requires InStep(s) && s.Empty()
    ensures var r := Echo(u, s);
            RunInStep(r) && (r.Going? ==> r.value.view.side == Data)
  {
    hide InStep, Say, AwaitFresh, Await, With;
    FreshInStep(s, Data, DATA_HELLO);
    var r1 := AwaitFresh(s, Data, DATA_HELLO);
    if r1.Going? {
      SayInStep(r1.value, Data, With('D', u.nick));
      AwaitInStep(Say(r1.value, Data, With('D', u.nick)), Data, With('T', r1.value.token));
    }
  }

  lemma HandOverInStep(u: User, s: State)
    requires InStep(s) && s.view.side == Data
    ensures RunInStep(HandOver(u, s))
  {
    hide InStep, Say, AwaitFirstToken, With;
    SayInStep(s, Data, With('D', u.msg));
    FirstTokenInStep(Say(s, Data, With('D', u.msg)), Data, 'T');
  }

  lemma FinishInStep(u: User, s: State)
    requires InStep(s) && s.Empty()
    ensures RunInStep(Finish(u, s))
  {
    hide InStep, Say, Await, With, Print;
    AwaitInStep(s, Control, With('S', Print(|u.msg|)));
    var r1 := Await(s, Control, With('S', Print(|u.msg|)));
    if r1.Going? {
      SayInStep(r1.value, Control, With('C', r1.value.token));
      AwaitInStep(Say(r1.value, Control, With('C', r1.value.token)), Control, ACK);
    }
  }

  lemma StartInStep(control: seq<Batch>, data: seq<Batch>)
    requires AllMessages(control) && AllMessages(data) && Separated(control, data)
    ensures var s := Start(control, data); InStep(s) && BetweenPhases(s) && Ahead(s, Control, 2)
  {
    StartState(control, data);
  }

  lemma LogInStep(r: Run<State>)
    requires RunInStep(r)
    ensures Numbered(Log(r))
  {
  }

  /**
   Against a server that makes the boundaries every run, however it ends, consumes on each
   channel the messages the server sent there from the first one on: none twice, none out
   of order, and none left out.
   */
  lemma NothingLost(u: User, control: seq<Batch>, data: seq<Batch>)
    requires AllMessages(control) && AllMessages(data) && Separated(control, data)
    ensures var log := Log(Session(u, Start(control, data)));
            Numbered(log) && InSequence(log, Streams(Flatten(control), Flatten(data)))
  {
    hide InSequence, Numbered, InStep, RunInStep, BetweenPhases, Ahead, Start, Separated, Greet, Echo, HandOver, Finish,
         Flatten;
    ConsumesInSequence(u, control, data);
    var s := Start(control, data);
    StartInStep(control, data);
    RunNumbered(u, s);
  }

  lemma Ready(s: State)
    requires BetweenPhases(s)
    ensures Coherent(s) && s.Empty()
  {
  }

  lemma GoingInStep(r: Run<State>)
    requires RunInStep(r) && r.Going?
    ensures InStep(r.value)
  {
  }

  lemma RunNumbered(u: User, s: State)
    requires InStep(s) && BetweenPhases(s) && Ahead(s, Control, 2)
    ensures Numbered(Log(Session(u, s)))
  {
    hide Numbered, InStep, RunInStep, BetweenPhases, Ahead, Coherent, Greet, Echo, HandOver, Finish;
    Ready(s);
    GreetInStep(u, s);
    GreetCompletes(u, s);
    LogInStep(Greet(u, s));
    var r1 := Greet(u, s);
    if r1.Going? {
      GoingInStep(r1);
      Ready(r1.value);
      EchoInStep(u, r1.value);
      EchoCompletes(u, r1.value);
      LogInStep(Echo(u, r1.value));
      var r2 := Echo(u, r1.value);
      if r2.Going? {
        GoingInStep(r2);
        HandOverInStep(u, r2.value);
        HandOverCompletes(u, r2.value);
        LogInStep(HandOver(u, r2.value));
        var r3 := HandOver(u, r2.value);
        if r3.Going? {
          GoingInStep(r3);
          FinishInStep(u, r3.value);
          LogInStep(Finish(u, r3.value));
        }
      }
    }
  }
}

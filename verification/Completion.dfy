/** Exactly which servers bring the client to the end. */
module Completion {
  import opened Batching
  import opened Decimal
  import opened Delivery
  import opened Handshake
  import opened Reception

  predicate IsToken(letter: char, m: string) {
    Prefixed(letter, m) || IsError(m)
  }

  function TokenOf(m: string): string {
    TwoBehind([m], 0)
  }

  /** The messages of a server that plays its part on both channels. */
  predicate Cooperates(u: User, c: seq<string>, d: seq<string>) {
    && |c| >= 4 && |d| >= 3
    && Passes(SERVER_HELLO, c[0]) && IsToken('S', c[1])
    && Passes(DATA_HELLO, d[0]) && Passes(With('T', TokenOf(c[1])), d[1]) && IsToken('T', d[2])
    && Passes(With('S', Print(|u.msg|)), c[2]) && Passes(ACK, c[3])
  }

  /** A phase ends with the buffer used up, these messages to come, and these boundaries. */
  ghost predicate Rests(s: State, c: seq<string>, d: seq<string>) {
    Coherent(s) && s.Empty() && Stream(s, Control) == c && Stream(s, Data) == d
  }

  /** One message of a channel is expected and consumed. */
  lemma AwaitConsumes(s: State, side: Side, expected: string)
    requires Coherent(s) && RightSide(s, side)
    ensures var r := Await(s, side, expected);
            && (r.Going? <==> Stream(s, side) != [] && Passes(expected, Stream(s, side)[0]))
            && (r.Going? ==> Stepped(s, r.value, side) && r.value.token == s.token)
  {
    hide Stream, Position, Ahead, Coherent, ReceiveIfEmpty, Expect, Passes, Stepped;
    ExpectSteps(s, side, expected);
  }

  lemma FreshConsumes(s: State, side: Side, expected: string)
    requires Coherent(s) && s.Empty()
    ensures var r := AwaitFresh(s, side, expected);
            && (r.Going? <==> Stream(s, side) != [] && Passes(expected, Stream(s, side)[0]))
            && (r.Going? ==> Stepped(s, r.value, side) && r.value.token == s.token)
  {
    hide Stream, Coherent, ReceiveIfEmpty, Receive, Expect, Passes, Stepped;
    ReceiveWhenEmpty(s, side);
    AwaitConsumes(s, side, expected);
  }

  lemma TokenConsumes(s: State, side: Side, letter: char)
    requires Coherent(s) && RightSide(s, side) && Ahead(s, side, 1)
    ensures var r := AwaitToken(s, side, letter);
            && (r.Going? <==> Stream(s, side) != [] && IsToken(letter, Stream(s, side)[0]))
            && (r.Going? ==> Stepped(s, r.value, side) && r.value.token == TokenOf(Stream(s, side)[0]))
  {
    hide Stream, Position, Ahead, Coherent, ReceiveIfEmpty, ExpectToken, Prefixed, IsError, Stepped, TwoBehind;
    ExpectTokenSteps(s, side, letter);
  }

  lemma FirstTokenConsumes(s: State, side: Side, letter: char)
    requires Coherent(s) && s.Empty() && Ahead(s, side, 1)
    ensures var r := AwaitFirstToken(s, side, letter);
            && (r.Going? <==> Stream(s, side) != [] && IsToken(letter, Stream(s, side)[0]))
            && (r.Going? ==> Stepped(s, r.value, side) && r.value.token == TokenOf(Stream(s, side)[0]))
  {
    hide Stream, Position, Ahead, Coherent, ReceiveIfEmpty, ExpectFirstToken, Prefixed, IsError, Stepped, TwoBehind;
    ExpectFirstTokenSteps(s, side, letter);
  }

  lemma GreetCompletes(u: User, s: State)
    requires BetweenPhases(s) && Ahead(s, Control, 2)
    ensures var r, c := Greet(u, s), Stream(s, Control);
            && (r.Going? <==> |c| >= 2 && Passes(SERVER_HELLO, c[0]) && IsToken('S', c[1]))
            && (r.Going? ==> Rests(r.value, c[2..], Stream(s, Data)) && BetweenPhases(r.value)
                             && r.value.token == TokenOf(c[1]))
  {
    hide Stream, Position, Ahead, Coherent, Pending, Say, AwaitFresh, AwaitToken, With, CLIENT_HELLO, SERVER_HELLO,
         Passes, IsToken, TokenOf, Print;
    assert Other(Control) == Data;
    SayKeeps(s, Control, CLIENT_HELLO);
    var s1 := Say(s, Control, CLIENT_HELLO);
    FreshConsumes(s1, Control, SERVER_HELLO);
    var r1 := AwaitFresh(s1, Control, SERVER_HELLO);
    if r1.Going? {
      SayKeeps(r1.value, Control, With('C', u.nick));
      var s2 := Say(r1.value, Control, With('C', u.nick));
      TokenConsumes(s2, Control, 'S');
      var r2 := AwaitToken(s2, Control, 'S');
      if r2.Going? {
        EmptyIff(r2.value, Control);
        SayKeeps(r2.value, Control, With('C', Print(u.port)));
      }
    }
  }

  lemma EchoCompletes(u: User, s: State)
    requires BetweenPhases(s)
    ensures var r, d := Echo(u, s), Stream(s, Data);
            && (r.Going? <==> |d| >= 2 && Passes(DATA_HELLO, d[0]) && Passes(With('T', s.token), d[1]))
            && (r.Going? ==> Rests(r.value, Stream(s, Control), d[2..]) && Ahead(r.value, Data, 1))
  {
    hide Stream, Position, Ahead, Coherent, Pending, Say, AwaitFresh, Await, With, DATA_HELLO, Passes;
    assert Other(Data) == Control;
    FreshConsumes(s, Data, DATA_HELLO);
    var r1 := AwaitFresh(s, Data, DATA_HELLO);
    if r1.Going? {
      SayKeeps(r1.value, Data, With('D', u.nick));
      var s1 := Say(r1.value, Data, With('D', u.nick));
      AwaitConsumes(s1, Data, With('T', s.token));
      var r2 := Await(s1, Data, With('T', s.token));
      if r2.Going? {
        EmptyIff(r2.value, Data);
      }
    }
  }

  lemma HandOverCompletes(u: User, s: State)
    requires Coherent(s) && s.Empty() && Ahead(s, Data, 1)
    ensures var r, d := HandOver(u, s), Stream(s, Data);
            && (r.Going? <==> d != [] && IsToken('T', d[0]))
            && (r.Going? ==> Rests(r.value, Stream(s, Control), d[1..]))
  {
    hide Stream, Position, Ahead, Coherent, Pending, Say, AwaitFirstToken, With, IsToken, TokenOf;
    assert Other(Data) == Control;
    SayKeeps(s, Data, With('D', u.msg));
    var s1 := Say(s, Data, With('D', u.msg));
    FirstTokenConsumes(s1, Data, 'T');
    var r := AwaitFirstToken(s1, Data, 'T');
    if r.Going? {
      EmptyIff(r.value, Data);
    }
  }

  lemma FinishCompletes(u: User, s: State)
    requires Coherent(s) && s.Empty()
    ensures var c := Stream(s, Control);
            Finish(u, s).Going? <==> |c| >= 2 && Passes(With('S', Print(|u.msg|)), c[0]) && Passes(ACK, c[1])
  {
    hide Stream, Position, Ahead, Coherent, Pending, Say, Await, With, Print, ACK, Passes;
    AwaitConsumes(s, Control, With('S', Print(|u.msg|)));
    var r1 := Await(s, Control, With('S', Print(|u.msg|)));
    if r1.Going? {
      SayKeeps(r1.value, Control, With('C', r1.value.token));
      AwaitConsumes(Say(r1.value, Control, With('C', r1.value.token)), Control, ACK);
    }
  }

  /**
   Liveness, exactly: with the boundaries of a lock-step server the client reaches the
   final close if and only if the messages of both channels are those of a server that
   plays its part, whatever else the batches hold.
   */
  lemma CompletesIff(u: User, control: seq<Batch>, data: seq<Batch>)
    requires AllMessages(control) && AllMessages(data) && Separated(control, data)
    ensures Session(u, Start(control, data)).Going? <==> Cooperates(u, Flatten(control), Flatten(data))
  {
    hide Stream, Ahead, Coherent, Position, Boundary, Flatten, Start, Greet, Echo, HandOver, Finish, Passes, IsToken,
         TokenOf, With, SERVER_HELLO, DATA_HELLO, ACK, Print;
    StartState(control, data);
    var s := Start(control, data);
    GreetCompletes(u, s);
    var r1 := Greet(u, s);
    if r1.Going? {
      EchoCompletes(u, r1.value);
      var r2 := Echo(u, r1.value);
      if r2.Going? {
        HandOverCompletes(u, r2.value);
        var r3 := HandOver(u, r2.value);
        if r3.Going? {
          FinishCompletes(u, r3.value);
        }
      }
    }
  }

  /** When the message goes out, exactly: what the first two messages of both channels must be. */
  lemma MessageSentIff(u: User, control: seq<Batch>, data: seq<Batch>)
    requires AllMessages(control) && AllMessages(data) && Separated(control, data)
    ensures var log, c, d := Log(Session(u, Start(control, data))), Flatten(control), Flatten(data);
            |log| > 8 && log[8].Sent?
            <==> && |c| >= 2 && Passes(SERVER_HELLO, c[0]) && IsToken('S', c[1])
                 && |d| >= 2 && Passes(DATA_HELLO, d[0]) && Passes(With('T', TokenOf(c[1])), d[1])
  {
    hide Stream, Ahead, Coherent, Position, Boundary, Flatten, Start, Greet, Echo, HandOver, Finish, Passes, IsToken,
         TokenOf, With, Print, Greeted, Echoed, Delivered, Finished;
    StartState(control, data);
    var s := Start(control, data);
    GreetCompletes(u, s);
    GreetEvents(u, control, data);
    var r1 := Greet(u, s);
    if r1.Going? {
      EchoCompletes(u, r1.value);
      EchoEvents(u, r1.value, data);
      var r2 := Echo(u, r1.value);
      if r2.Going? {
        HandOverEvents(u, r2.value);
        var r3 := HandOver(u, r2.value);
        if r3.Going? {
          DeliveredTakes(u, r3.value.log);
          FinishEvents(u, r3.value);
        }
      }
    }
  }

  lemma DeliveredTakes(u: User, log: seq<Event>)
    requires Delivered(u, log)
    ensures |log| > 9 && log[9].Took?
  {
  }

  /** The hazard: a data message that starts with E lets the message go out, with no token repeated. */
  lemma SentUnrepeated(u: User)
    ensures var control, data := Singly([SERVER_HELLO, "S 1"]), Singly([DATA_HELLO, "E"]);
            var log := Log(Session(u, Start(control, data)));
            && |log| > 8 && log[8] == Sent(Data, With('D', u.msg))
            && log[3].Got? && log[7].Got? && !TokenRepeated(log[3].text, log[7].text)
  {
    hide Session, Start, Boundary, Singly, TokenRepeated, Flatten;
    var c, d := [SERVER_HELLO, "S 1"], [DATA_HELLO, "E"];
    FlattenSingly(c);
    FlattenSingly(d);
    SinglyHasBoundaries(c, 2);
    SinglyHasBoundaries(d, 2);
    SinglyHasBoundaries(d, 3);
    MessageSentIff(u, Singly(c), Singly(d));
    TokenRepeatedIff(u, Singly(c), Singly(d));
    TokenEchoedBeforeMessage(u, Singly(c), Singly(d));
  }
}

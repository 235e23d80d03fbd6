/**
 The client's side of the two-channel protocol, on decoded batches: what it sends, which
 messages it consumes, and when it gives up. What the server sends may depend on what it has
 heard; since the client is deterministic, every run is the run on some fixed batches.
 */
module Handshake {
  import opened Decimal
  import opened Reception

  datatype Side = Control | Data

  /** What happens, in order: a message sent, one consumed (by its number on its channel), a token kept. */
  datatype Event =
    | Sent(side: Side, text: string)
    | Got(side: Side, index: nat, text: string)
    | Took(side: Side, index: nat, token: string)
    | Reported(side: Side)

  /** The client is still going, or it has reported an error and exited. */
  datatype Run<+T> = Going(value: T) | Stopped(log: seq<Event>) {
    predicate IsFailure() { Stopped? }
    function PropagateFailure<U>(): Run<U>
      requires Stopped?
    {
      Stopped(log)
    }
    function Extract(): T
      requires Going?
    {
      value
    }
  }

  /** The receive buffer: a batch, the number of its first message, and how many are consumed. */
  datatype View = View(side: Side, base: nat, ms: seq<string>, next: nat)

  /** What a channel will deliver, and how many messages it has delivered. */
  datatype Inbox = Inbox(batches: seq<Batch>, used: nat)

  datatype State = State(view: View, control: Inbox, data: Inbox, token: string, log: seq<Event>) {
    predicate Empty() {
      view.next >= |view.ms|
    }

    /** The text at the cursor; nothing is there when the buffer is used up. */
    function Current(): string {
      if view.next < |view.ms| then view.ms[view.next] else ""
    }

    function InboxOf(side: Side): Inbox {
      if side == Control then control else data
    }
  }

  // ---- Texts --------------------------------------------------------------------------------

  const CLIENT_HELLO := "C GRNVS V:1.0"
  const SERVER_HELLO := "S GRNVS V:1.0"
  const DATA_HELLO := "T GRNVS V:1.0"
  const ACK := "S ACK"

  function With(letter: char, text: string): string {
    [letter, ' '] + text
  }

  /** A message that starts with 'E' is taken for an error report, printed, and passed. */
  predicate IsError(actual: string) {
    actual != "" && actual[0] == 'E'
  }

  predicate Passes(expected: string, actual: string) {
    IsError(actual) || actual == expected
  }

  /** Whether a text starts with the letter and a space, as tokens do. */
  predicate Prefixed(letter: char, actual: string) {
    |actual| >= 2 && actual[0] == letter && actual[1] == ' '
  }

  /**
   The C string two characters behind message `i` of a batch: its tail, or for a message
   of one character the string that follows it, which for the last message is its copy.
   */
  function TwoBehind(ms: seq<string>, i: nat): string
    requires i < |ms|
  {
    if |ms[i]| >= 2 then ms[i][2..]
    else if i + 1 < |ms| then ms[i + 1]
    else ms[i]
  }

  // ---- Steps --------------------------------------------------------------------------------

  function Say(s: State, side: Side, text: string): State {
    s.(log := s.log + [Sent(side, text)])
  }

  /** Receives the next batch over whatever the buffer held; a failed read leaves it empty. */
  function Receive(s: State, side: Side): Run<State> {
    var inbox := s.InboxOf(side);
    if inbox.batches == [] then Going(s.(view := View(side, inbox.used, [], 0)))
    else
      match inbox.batches[0]
      case Rejected(_) => Stopped(s.log + [Reported(side)])
      case Messages(ms) =>
        var rest := Inbox(inbox.batches[1..], inbox.used + |ms|);
        var v := View(side, inbox.used, ms, 0);
        Going(if side == Control then s.(view := v, control := rest) else s.(view := v, data := rest))
  }

  function ReceiveIfEmpty(s: State, side: Side): Run<State> {
    if s.Empty() then Receive(s, side) else Going(s)
  }

  /** The current message is done with. */
  function Advance(s: State): State {
    s.(view := s.view.(next := s.view.next + 1),
       log := s.log + [Got(s.view.side, s.view.base + s.view.next, s.Current())])
  }

  function Expect(s: State, side: Side, expected: string): Run<State> {
    if !s.Empty() && Passes(expected, s.Current()) then Going(Advance(s)) else Stopped(s.log + [Reported(side)])
  }

  /** Keeps the token behind the cursor. */
  function ExpectToken(s: State, side: Side, letter: char): Run<State> {
    if !s.Empty() && (Prefixed(letter, s.Current()) || IsError(s.Current())) then
      Going(Advance(s.(token := TwoBehind(s.view.ms, s.view.next))))
    else Stopped(s.log + [Reported(side)])
  }

  /** Keeps the token at the start of the buffer, wherever the cursor is. */
  function ExpectFirstToken(s: State, side: Side, letter: char): Run<State> {
    if !s.Empty() && (Prefixed(letter, s.Current()) || IsError(s.Current())) then
      var token := TwoBehind(s.view.ms, 0);
      Going(Advance(s.(token := token, log := s.log + [Took(s.view.side, s.view.base, token)])))
    else Stopped(s.log + [Reported(side)])
  }

  // ---- The session --------------------------------------------------------------------------

  datatype User = User(nick: string, msg: string, port: nat)

  /** Receiving over whatever the buffer held, then expecting a text. */
  function AwaitFresh(s: State, side: Side, expected: string): Run<State> {
    var f :- Receive(s, side);
    Expect(f, side, expected)
  }

  /** Receiving if the buffer is used up, then expecting a text. */
  function Await(s: State, side: Side, expected: string): Run<State> {
    var f :- ReceiveIfEmpty(s, side);
    Expect(f, side, expected)
  }

  function AwaitToken(s: State, side: Side, letter: char): Run<State> {
    var f :- ReceiveIfEmpty(s, side);
    ExpectToken(f, side, letter)
  }

  function AwaitFirstToken(s: State, side: Side, letter: char): Run<State> {
    var f :- ReceiveIfEmpty(s, side);
    ExpectFirstToken(f, side, letter)
  }

  /** Greeting, nickname, token and port, on the control channel. */
  function Greet(u: User, s: State): Run<State> {
    var s1 :- AwaitFresh(Say(s, Control, CLIENT_HELLO), Control, SERVER_HELLO);
    var s2 :- AwaitToken(Say(s1, Control, With('C', u.nick)), Control, 'S');
    Going(Say(s2, Control, With('C', Print(u.port))))
  }

  /** Greeting, nickname and echo of the token, on the data channel, whatever the buffer held. */
  function Echo(u: User, s: State): Run<State> {
    var s1 :- AwaitFresh(s, Data, DATA_HELLO);
    Await(Say(s1, Data, With('D', u.nick)), Data, With('T', s1.token))
  }

  /** The message, and the data token in return. */
  function HandOver(u: User, s: State): Run<State> {
    AwaitFirstToken(Say(s, Data, With('D', u.msg)), Data, 'T')
  }

  /** Length, data token and acknowledgement, on the control channel. */
  function Finish(u: User, s: State): Run<State> {
    var s1 :- Await(s, Control, With('S', Print(|u.msg|)));
    Await(Say(s1, Control, With('C', s1.token)), Control, ACK)
  }

  function Session(u: User, s: State): Run<State> {
    var s1 :- Greet(u, s);
    var s2 :- Echo(u, s1);
    var s3 :- HandOver(u, s2);
    Finish(u, s3)
  }

  function Start(control: seq<Batch>, data: seq<Batch>): State {
    State(View(Control, 0, [], 0), Inbox(control, 0), Inbox(data, 0), "", [])
  }

  /** Everything that happened in a run, however it ended. */
  function Log(r: Run<State>): seq<Event> {
    match r
    case Going(s) => s.log
    case Stopped(log) => log
  }

  // ---- Safety over all runs -----------------------------------------------------------------

  predicate Consumed(e: Event, side: Side, index: nat) {
    e.Got? && e.side == side && e.index == index
  }

  /** The control phase, up to the port. */
  predicate Greeted(u: User, log: seq<Event>, token: string) {
    && |log| >= 5
    && log[0] == Sent(Control, CLIENT_HELLO)
    && Consumed(log[1], Control, 0) && Passes(SERVER_HELLO, log[1].text)
    && log[2] == Sent(Control, With('C', u.nick))
    && Consumed(log[3], Control, 1)
    && (IsError(log[3].text) || (Prefixed('S', log[3].text) && token == log[3].text[2..]))
    && log[4] == Sent(Control, With('C', Print(u.port)))
  }

  /** The data phase that follows, up to the echo of the token. */
  predicate Echoed(u: User, log: seq<Event>, token: string) {
    && |log| >= 8
    && Consumed(log[5], Data, 0) && Passes(DATA_HELLO, log[5].text)
    && log[6] == Sent(Data, With('D', u.nick))
    && Consumed(log[7], Data, 1) && Passes(With('T', token), log[7].text)
  }

  /** The message, and the data token that answers it. */
  predicate Delivered(u: User, log: seq<Event>) {
    && |log| >= 11
    && log[8] == Sent(Data, With('D', u.msg))
    && log[9].Took? && log[9].side == Data
    && Consumed(log[10], Data, 2) && (Prefixed('T', log[10].text) || IsError(log[10].text))
  }

  /** The events that remain, up to the acknowledgement. */
  predicate Finished(u: User, log: seq<Event>) {
    && |log| == 14
    && log[11].Got? && Passes(With('S', Print(|u.msg|)), log[11].text)
    && log[9].Took? && log[12] == Sent(Control, With('C', log[9].token))
    && log[13].Got? && Passes(ACK, log[13].text)
  }

  lemma TwoBehindToken(letter: char)
    ensures forall ms: seq<string>, i: nat {:trigger TwoBehind(ms, i)} ::
              i < |ms| && Prefixed(letter, ms[i]) ==> TwoBehind(ms, i) == ms[i][2..]
  {
  }

  lemma GreetingEvents(control: seq<Batch>, data: seq<Batch>)
    ensures match AwaitFresh(Say(Start(control, data), Control, CLIENT_HELLO), Control, SERVER_HELLO)
            case Going(s) =>
              && |s.log| == 2 && s.log[0] == Sent(Control, CLIENT_HELLO)
              && Consumed(s.log[1], Control, 0) && Passes(SERVER_HELLO, s.log[1].text)
              && s.view.side == Control && s.view.base + s.view.next == 1 && (s.Empty() ==> s.control.used == 1)
              && s.data == Inbox(data, 0)
            case Stopped(log) => log == [Sent(Control, CLIENT_HELLO), Reported(Control)]
  {
    hide Passes, CLIENT_HELLO, SERVER_HELLO;
  }

  lemma GreetEvents(u: User, control: seq<Batch>, data: seq<Batch>)
    ensures match Greet(u, Start(control, data))
            case Going(s) => Greeted(u, s.log, s.token) && |s.log| == 5 && s.data == Inbox(data, 0)
            case Stopped(log) => |log| <= 4 && forall e :: e in log && e.Sent? ==> e.side == Control
  {
    hide AwaitFresh, Start, Passes, Prefixed, IsError, CLIENT_HELLO, SERVER_HELLO, With, Print, TwoBehind;
    TwoBehindToken('S');
    GreetingEvents(control, data);
  }

  lemma EchoEvents(u: User, s: State, data: seq<Batch>)
    requires |s.log| == 5 && s.data == Inbox(data, 0)
    ensures var r := Echo(u, s);
            && s.log <= Log(r)
            && (forall i :: 5 <= i < |Log(r)| && Log(r)[i].Sent? ==> i == 6)
            && (|Log(r)| > 6 && Log(r)[6].Sent? ==> Log(r)[6] == Sent(Data, With('D', u.nick)))
            && |Log(r)| <= 8
            && (r.Going? ==> Echoed(u, Log(r), s.token) && |Log(r)| == 8
                             && r.value.view.side == Data && r.value.view.base + r.value.view.next == 2
                             && (r.value.Empty() ==> r.value.data.used == 2))
  {
    hide Passes, Prefixed, IsError, DATA_HELLO, With, TwoBehind;
  }

  lemma HandOverEvents(u: User, s: State)
    requires |s.log| == 8
    requires s.view.side == Data && s.view.base + s.view.next == 2
    requires s.Empty() ==> s.data.used == 2
    ensures var r := HandOver(u, s);
            && s.log <= Log(r)
            && |Log(r)| > 8 && Log(r)[8] == Sent(Data, With('D', u.msg))
            && (forall i :: 9 <= i < |Log(r)| ==> !Log(r)[i].Sent?)
            && (r.Going? ==> Delivered(u, Log(r)) && |Log(r)| == 11 && Log(r)[9].token == r.value.token)
  {
    hide Passes, Prefixed, IsError, With, TwoBehind;
  }

  /** Waiting for a text adds the event of consuming it, or the report. */
  lemma AwaitEvents(s: State, side: Side, expected: string)
    ensures match Await(s, side, expected)
            case Going(a) =>
              && |a.log| == |s.log| + 1 && s.log <= a.log && a.token == s.token
              && a.log[|s.log|].Got? && Passes(expected, a.log[|s.log|].text)
            case Stopped(log) => log == s.log + [Reported(side)]
  {
    hide Passes;
  }

  lemma FinishEvents(u: User, s: State)
    requires |s.log| == 11 && s.log[9].Took? && s.log[9].token == s.token
    ensures var r := Finish(u, s);
            && s.log <= Log(r)
            && (forall i :: 11 <= i < |Log(r)| && Log(r)[i].Sent? ==> Log(r)[i].side == Control)
            && (r.Going? ==> Finished(u, Log(r)))
  {
    hide Await, Passes, ACK, With, Print;
    var length := With('S', Print(|u.msg|));
    AwaitEvents(s, Control, length);
    var r1 := Await(s, Control, length);
    if r1.Going? {
      AwaitEvents(Say(r1.value, Control, With('C', r1.value.token)), Control, ACK);
    }
  }

  /** Whether the second control message gave a token and the second data message repeated it. */
  predicate TokenRepeated(given: string, repeated: string) {
    Prefixed('S', given) && repeated == With('T', given[2..])
  }

  /** What a log says about the message to deliver, as far as it got. */
  predicate Safe(u: User, log: seq<Event>) {
    (|log| > 8 && log[8].Sent?) ==>
      && log[8] == Sent(Data, With('D', u.msg))
      && Consumed(log[3], Control, 1) && Consumed(log[7], Data, 1)
      && (TokenRepeated(log[3].text, log[7].text) <==> !IsError(log[3].text) && !IsError(log[7].text))
  }

  /**
   Safety of every run, however it ends. The only sends on the data channel are the
   nickname and, as event 8, the message. When the message goes out, the data channel has
   repeated the token that the control channel gave, if and only if neither of these two
   messages starts like an error report.
   */
  lemma TokenEchoedBeforeMessage(u: User, control: seq<Batch>, data: seq<Batch>)
    ensures var log := Log(Session(u, Start(control, data)));
            && (forall i :: 0 <= i < |log| && log[i].Sent? && log[i].side == Data ==> i == 6 || i == 8)
            && (|log| > 6 && log[6].Sent? ==> log[6] == Sent(Data, With('D', u.nick)))
            && Safe(u, log)
  {
    hide Greet, Echo, HandOver, Finish, Passes, Prefixed, IsError, With, TokenRepeated, Print;
    GreetEvents(u, control, data);
    var r1 := Greet(u, Start(control, data));
    if r1.Going? {
      EchoEvents(u, r1.value, data);
      var r2 := Echo(u, r1.value);
      SafeAfter(u, Log(r2), r1.value.token);
      if r2.Going? {
        HandOverEvents(u, r2.value);
        var r3 := HandOver(u, r2.value);
        SafeAfter(u, Log(r3), r1.value.token);
        if r3.Going? {
          FinishEvents(u, r3.value);
          SafeAfter(u, Log(Finish(u, r3.value)), r1.value.token);
        }
      }
    }
  }

  lemma SafeAfter(u: User, log: seq<Event>, token: string)
    requires |log| >= 5 && Greeted(u, log, token)
    requires |log| > 8 && log[8].Sent? ==> Echoed(u, log, token) && log[8] == Sent(Data, With('D', u.msg))
    ensures Safe(u, log)
  {
  }

  /**
   What completion means: the client reached the final close only after it had sent the
   data token it kept. The server had reported the length of the message, and it had
   acknowledged, if and only if what was consumed in their place does not start like an
   error report.
   */
  lemma CompletionMeans(u: User, control: seq<Batch>, data: seq<Batch>)
    ensures var r := Session(u, Start(control, data));
            r.Going? ==>
              var log := Log(r);
              && |log| == 14 && log[8].Sent? && log[9].Took? && log[11].Got? && log[13].Got?
              && log[12] == Sent(Control, With('C', log[9].token))
              && (log[11].text == With('S', Print(|u.msg|)) <==> !IsError(log[11].text))
              && (log[13].text == ACK <==> !IsError(log[13].text))
  {
    hide Greet, Echo, HandOver, Finish, Prefixed, Print, Greeted, Echoed, Delivered;
    GreetEvents(u, control, data);
    var r1 := Greet(u, Start(control, data));
    if r1.Going? {
      EchoEvents(u, r1.value, data);
      var r2 := Echo(u, r1.value);
      if r2.Going? {
        HandOverEvents(u, r2.value);
        var r3 := HandOver(u, r2.value);
        if r3.Going? {
          DeliveredSends(u, Log(r3));
          FinishEvents(u, r3.value);
        }
      }
    }
  }

  lemma DeliveredSends(u: User, log: seq<Event>)
    requires Delivered(u, log)
    ensures |log| > 9 && log[8].Sent? && log[9].Took?
  {
  }
}

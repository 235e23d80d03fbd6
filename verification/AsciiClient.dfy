/**
 The client as it is written: one receive buffer for both channels, a cursor into it, and a
 counter of the messages left. What it does is the session on the decoded batches.
 */
module AsciiClient {
  import opened CStrings
  import opened Decimal
  import opened Handshake
  import opened Netstring
  import opened Reception

  // ---- What goes over the wire --------------------------------------------------------------

  predicate SendsOn(e: Event, side: Side) {
    e.Sent? && e.side == side
  }

  /** The messages sent on a channel, in order. */
  function SentOn(log: seq<Event>, side: Side): seq<string> {
    if log == [] then []
    else
      var last := log[|log| - 1];
      SentOn(log[..|log| - 1], side) + (if SendsOn(last, side) then [last.text] else [])
  }

  lemma SentMore(log: seq<Event>, e: Event, side: Side)
    ensures SentOn(log + [e], side) == if SendsOn(e, side) then SentOn(log, side) + [e.text] else SentOn(log, side)
  {
    assert (log + [e])[..|log + [e]| - 1] == log;
  }

  lemma {:induction false} EncodeAllAppend(ms: seq<string>, m: string)
    ensures EncodeAll(ms + [m]) == EncodeAll(ms) + Encode(m)
  {
    hide Encode;
    if ms == [] {
      assert ms + [m] == [m];
      assert EncodeAll([m][1..]) == "";
    } else {
      assert (ms + [m])[1..] == ms[1..] + [m];
      EncodeAllAppend(ms[1..], m);
    }
  }

  /** What has been written to the two channels is the netstrings of what was sent there. */
  predicate OnWire(log: seq<Event>, controlOut: string, dataOut: string) {
    controlOut == EncodeAll(SentOn(log, Control)) && dataOut == EncodeAll(SentOn(log, Data))
  }

  lemma SentOnWire(log: seq<Event>, controlOut: string, dataOut: string, side: Side, text: string)
    requires OnWire(log, controlOut, dataOut)
    ensures var written := Encode(text);
            OnWire(log + [Sent(side, text)],
                   if side == Control then controlOut + written else controlOut,
                   if side == Control then dataOut else dataOut + written)
  {
    hide EncodeAll, Encode, SentOn;
    SentMore(log, Sent(side, text), Control);
    SentMore(log, Sent(side, text), Data);
    EncodeAllAppend(SentOn(log, side), text);
  }

  lemma QuietOnWire(log: seq<Event>, controlOut: string, dataOut: string, e: Event)
    requires OnWire(log, controlOut, dataOut) && !e.Sent?
    ensures OnWire(log + [e], controlOut, dataOut)
  {
    hide EncodeAll, SentOn;
    SentMore(log, e, Control);
    SentMore(log, e, Data);
  }

  /** A read that the receive loop can handle. */
  predicate Readable(t: string) {
    |t| < BUFSIZE && NUL !in t && Manageable(t, 0)
  }

  predicate AllReadable(ts: seq<string>) {
    forall t :: t in ts ==> Readable(t)
  }

  function Batches(ts: seq<string>): seq<Batch>
    requires AllReadable(ts)
  {
    if ts == [] then []
    else
      assert Readable(ts[0]) by { assert ts[0] in ts; }
      [Decode(ts[0], 0)] + Batches(ts[1..])
  }

  // ---- What the buffer holds ----------------------------------------------------------------

  /** The longest message a batch can hold, since there is room for its copy. */
  const LONGEST := BUFSIZE / 2 - 1

  predicate Moderate(m: string) {
    NUL !in m && |m| <= LONGEST
  }

  predicate AllModerate(ms: seq<string>) {
    forall i :: 0 <= i < |ms| ==> Moderate(ms[i])
  }

  /** No message that has been consumed is empty. */
  predicate UsedNotEmpty(v: View) {
    forall i :: 0 <= i < v.next && i < |v.ms| ==> v.ms[i] != ""
  }

  lemma {:induction false} DecodedModerate(text: string, used: nat)
    requires Manageable(text, used) && NUL !in text && Decode(text, used).Messages?
    ensures AllModerate(Decode(text, used).ms)
    decreases |text|
  {
    hide Claimed, Silences, Malformed, Index;
    if text != "" {
      var step := Parse(text);
      PartsOf(text);
      DecodedModerate(step.rest, used + |step.message| + 1);
    }
  }

  lemma PartsOf(text: string)
    requires Defined(text) && Parse(text).Accept? && NUL !in text
    ensures NUL !in Parse(text).message && NUL !in Parse(text).rest
  {
    hide Claimed, Silences, Index;
    ParseShape(text);
  }

  /** The string two characters behind a message that has at least one. */
  lemma BehindAt(b: seq<char>, ms: seq<string>, i: nat)
    requires Laid(b, ms) && i < |ms| && ms[i] != ""
    ensures StringAt(b, Offset(ms, i) + 2, TwoBehind(ms, i))
  {
    hide Laid, Layout, StringAt;
    MessageAt(b, ms, i);
    if |ms[i]| >= 2 {
      SuffixAt(b, Offset(ms, i), ms[i], 2);
    } else {
      OffsetStep(ms, i);
      MessageAt(b, ms, i + 1);
    }
  }

  lemma TwoBehindModerate(ms: seq<string>, i: nat)
    requires AllModerate(ms) && i < |ms|
    ensures Moderate(TwoBehind(ms, i))
  {
    assert Moderate(ms[i]);
  }

  lemma OffsetZero(ms: seq<string>)
    ensures Offset(ms, 0) == 0
  {
  }

  /** `strcmp` with a text. */
  method SameString(a: array<char>, p: nat, expected: string, ghost t: string) returns (same: bool)
    requires StringAt(a[..], p, t)
    ensures same <==> t == expected
  {
    var n := StrLen(a, p, t);
    same := a[p..p + n] == expected;
    assert a[p..p + n] == a[..][p..p + |t|];
  }

  method ReadString(a: array<char>, p: nat, ghost t: string) returns (text: string)
    requires StringAt(a[..], p, t)
    ensures text == t
  {
    var n := StrLen(a, p, t);
    text := a[p..p + n];
    assert text == a[..][p..p + |t|];
  }

  /** The first characters of a C string decide whether it carries a token. */
  method HasPrefix(a: array<char>, p: nat, letter: char, ghost t: string) returns (has: bool)
    requires StringAt(a[..], p, t) && letter != NUL
    ensures has <==> Prefixed(letter, t)
  {
    CharAt(a[..], p, t, 0);
    if a[p] != letter {
      return false;
    }
    CharAt(a[..], p, t, 1);
    has := a[p + 1] == ' ';
  }

  method UpdateNets(num: int, cur: nat, a: array<char>, ghost t: string) returns (next: nat)
    requires StringAt(a[..], cur, t)
    ensures next == if num == 0 then 0 else cur + |t| + 1
  {
    if num == 0 {
      return 0;
    }
    var n := StrLen(a, cur, t);
    next := cur + n + 1;
  }

  // ---- What fits, and what is at the cursor ---------------------------------------------------

  /** Arguments that a command line can give and whose messages fit the send buffer. */
  predicate Presentable(u: User) {
    NUL !in u.nick && NUL !in u.msg && Fits(With('C', u.nick)) && Fits(With('D', u.msg)) && u.port < 0x1_0000
  }

  lemma GreetingsFit(u: User)
    requires Presentable(u)
    ensures Sendable(CLIENT_HELLO) && Sendable(With('C', u.nick)) && Sendable(With('D', u.nick))
    ensures Sendable(With('D', u.msg)) && Sendable(With('C', Print(u.port)))
    ensures SERVER_HELLO != "" && DATA_HELLO != "" && ACK != "" && With('S', Print(|u.msg|)) != ""
  {
    hide Encode, Fits, Print;
    FitsIff(CLIENT_HELLO);
    FitsIff(With('C', u.nick));
    FitsIff(With('D', u.nick));
    FitsIff(With('D', u.msg));
    PortFits(u.port);
  }

  predicate Sendable(text: string) {
    NUL !in text && Fits(text)
  }

  lemma PortFits(port: nat)
    requires port < 0x1_0000
    ensures Sendable(With('C', Print(port)))
  {
    hide Fits;
    PrintLength(port / 10);
    PrintShape(port);
    assert !IsDigit(NUL);
    FitsIff(With('C', Print(port)));
  }

  lemma TokenFits(letter: char, token: string)
    requires Moderate(token) && letter != NUL
    ensures Sendable(With(letter, token)) && With(letter, token) != ""
  {
    hide Fits;
    FitsIff(With(letter, token));
  }

  lemma NeitherWhenEmpty(s: State, letter: char)
    ensures s.Current() == "" ==> !Prefixed(letter, s.Current()) && !IsError(s.Current())
  {
  }

  lemma CurrentFirst(b: seq<char>, p: nat, t: string)
    requires StringAt(b, p, t)
    ensures p < |b| && (b[p] == 'E' <==> IsError(t))
  {
    CharAt(b, p, t, 0);
  }

  lemma NothingAt(b: seq<char>)
    requires |b| > 0 && b[0] == NUL
    ensures StringAt(b, 0, "")
  {
  }

  lemma NoneModerate()
    ensures AllModerate([])
  {
  }

  lemma FirstRead(input: seq<string>)
    requires AllReadable(input)
    ensures input == [] <==> Batches(input) == []
    ensures input != [] ==>
              && Readable(input[0]) && AllReadable(input[1..])
              && Batches(input)[0] == Decode(input[0], 0) && Batches(input)[1..] == Batches(input[1..])
  {
    assert input != [] ==> input[0] in input;
  }

  lemma FirstShown(b: seq<char>, ms: seq<string>)
    requires Laid(b, ms)
    ensures Offset(ms, 0) == 0
    ensures StringAt(b, 0, if ms == [] then "" else ms[0])
  {
    if ms != [] {
      MessageAt(b, ms, 0);
    }
  }

  // ---- The client ---------------------------------------------------------------------------

  class Client {
    const recvbuf: array<char>
    const sendbuf: array<char>
    var startOfNetstring: nat
    var netStringsInBuf: int
    var token: string
    /** What the reads of each channel will deliver, and what has been written to it. */
    var controlIn: seq<string>
    var dataIn: seq<string>
    var controlOut: string
    var dataOut: string
    ghost var s: State

    /** The concrete fields against the state of the session. */
    ghost predicate Core()
      reads this
    {
      && recvbuf != sendbuf && recvbuf.Length == sendbuf.Length == BUFSIZE
      && AllReadable(controlIn) && AllReadable(dataIn)
      && s.control.batches == Batches(controlIn) && s.data.batches == Batches(dataIn)
      && token == s.token && Moderate(token)
      && OnWire(s.log, controlOut, dataOut)
      && AllModerate(s.view.ms) && UsedNotEmpty(s.view)
    }

    /** Cursor and counter denote the first message that is not consumed and the number left. */
    ghost predicate Cursor()
      requires recvbuf.Length == BUFSIZE
      reads this, recvbuf
    {
      if s.Empty() then startOfNetstring == 0 && netStringsInBuf <= 0
      else
        && Laid(recvbuf[..], s.view.ms)
        && startOfNetstring == Offset(s.view.ms, s.view.next)
        && netStringsInBuf == |s.view.ms| - s.view.next
    }

    /** Between two messages: the counter is zero when the buffer is used up. */
    ghost predicate Ready()
      reads this, recvbuf
    {
      Core() && Cursor() && (s.Empty() ==> netStringsInBuf == 0)
    }

    /** After a read: the current message, or nothing, is the C string at the cursor. */
    ghost predicate Shown()
      reads this, recvbuf
    {
      Core() && Cursor() && StringAt(recvbuf[..], startOfNetstring, s.Current())
    }

    /** The client has given up after the events of the log. */
    ghost predicate GaveUp(log: seq<Event>)
      reads this
    {
      s.log == log && OnWire(log, controlOut, dataOut)
    }

    /** The client is where a run of the session is. */
    ghost predicate At(r: Run<State>, ok: bool)
      reads this, recvbuf
    {
      if r.Going? then ok && Ready() && s == r.value else !ok && GaveUp(r.log)
    }

    constructor (controlIn: seq<string>, dataIn: seq<string>)
      requires AllReadable(controlIn) && AllReadable(dataIn)
      ensures Ready() && s == Start(Batches(controlIn), Batches(dataIn))
      ensures fresh(recvbuf) && fresh(sendbuf)
    {
      recvbuf := new char[BUFSIZE](_ => NUL);
      sendbuf := new char[BUFSIZE](_ => NUL);
      startOfNetstring, netStringsInBuf, token := 0, 0, "";
      this.controlIn, this.dataIn, controlOut, dataOut := controlIn, dataIn, "", "";
      s := Start(Batches(controlIn), Batches(dataIn));
    }

    /** Sends a text that fits the send buffer. */
    method Send(side: Side, text: string)
      requires Ready() && Sendable(text)
      modifies this, sendbuf
      ensures Ready() && s == Say(old(s), side, text)
    {
      hide Laid, OnWire, AllReadable, Batches, Moderate, AllModerate, Fits, Encode, Offset;
      SentOnWire(s.log, controlOut, dataOut, side, text);
      var written := SendMessage(text, sendbuf, true);
      if side == Control {
        controlOut := controlOut + written;
      } else {
        dataOut := dataOut + written;
      }
      s := Say(s, side, text);
    }

    /** The channel is closed, or the read times out: the buffer is cleared. */
    method ReadNothing(side: Side)
      requires Core() && startOfNetstring == 0
      modifies this, recvbuf
      ensures unchanged(`token, `controlIn, `dataIn, `controlOut, `dataOut)
      ensures Shown() && s == old(s).(view := View(side, old(s).InboxOf(side).used, [], 0))
    {
      hide Laid, OnWire, AllReadable, Batches, AllModerate, Moderate, Offset, StringAt;
      MemSet(recvbuf);
      var nets: int :| nets == 0 || nets == -1;
      netStringsInBuf := nets;
      s := s.(view := View(side, s.InboxOf(side).used, [], 0));
      NothingAt(recvbuf[..]);
      NoneModerate();
    }

    /** Receives over whatever the buffer holds; the cursor stands at its start. */
    method Refill(side: Side) returns (ok: bool)
      requires Core() && startOfNetstring == 0
      modifies this, recvbuf
      ensures unchanged(`token)
      ensures var r := Receive(old(s), side);
              && ok == r.Going?
              && (ok ==> Shown() && s == r.value)
              && (!ok ==> GaveUp(r.log))
    {
      hide Laid, OnWire, Decode, AllReadable, Batches, Moderate, AllModerate, Offset, Manageable, StringAt;
      var input := if side == Control then controlIn else dataIn;
      if input == [] {
        FirstRead(input);
        ReadNothing(side);
        return true;
      }
      FirstRead(input);
      var r := RecvMessage(input[0], recvbuf);
      if side == Control {
        controlIn := controlIn[1..];
      } else {
        dataIn := dataIn[1..];
      }
      match r {
        case Exited(_) =>
          QuietOnWire(s.log, controlOut, dataOut, Reported(side));
          s := s.(log := s.log + [Reported(side)]);
          ok := false;
        case Count(nets) =>
          netStringsInBuf := nets;
          ghost var ms := Decode(input[0], 0).ms;
          DecodedModerate(input[0], 0);
          FirstShown(recvbuf[..], ms);
          s := Receive(s, side).value;
          ok := true;
      }
    }

    /** The error report; the client does not come back from it. */
    method Report(side: Side)
      requires Core()
      modifies `s
      ensures GaveUp(old(s).log + [Reported(side)])
    {
      QuietOnWire(s.log, controlOut, dataOut, Reported(side));
      s := s.(log := s.log + [Reported(side)]);
    }

    /** Compares the message at the cursor with a text. */
    method CheckMessage(expected: string) returns (passes: bool)
      requires Shown()
      ensures passes == Passes(expected, s.Current())
    {
      hide Laid, OnWire, AllReadable, Batches, AllModerate, Moderate, Offset, StringAt;
      CurrentFirst(recvbuf[..], startOfNetstring, s.Current());
      if recvbuf[startOfNetstring] == 'E' {
        return true;
      }
      passes := SameString(recvbuf, startOfNetstring, expected, s.Current());
    }

    /** One message less, and the cursor behind it, or back at the start. */
    method NextMessage()
      requires Shown() && !s.Empty() && s.Current() != ""
      modifies this
      ensures unchanged(`token) && Ready() && s == Advance(old(s))
    {
      hide Laid, OnWire, AllReadable, Batches, AllModerate, Moderate, Offset, StringAt;
      netStringsInBuf := netStringsInBuf - 1;
      startOfNetstring := UpdateNets(netStringsInBuf, startOfNetstring, recvbuf, s.Current());
      OffsetStep(s.view.ms, s.view.next);
      QuietOnWire(s.log, controlOut, dataOut, Got(s.view.side, s.view.base + s.view.next, s.Current()));
      s := Advance(s);
    }

    method ExpectText(side: Side, expected: string) returns (ok: bool)
      requires Shown() && expected != ""
      modifies this
      ensures At(Expect(old(s), side, expected), ok)
    {
      hide Laid, OnWire, AllReadable, Batches, AllModerate, Moderate, Offset, StringAt, Advance;
      ok := CheckMessage(expected);
      if ok {
        NextMessage();
      } else {
        Report(side);
      }
    }

    /** Whether the message at the cursor is a token, or passes for one. */
    method CheckToken(letter: char, placeholder: string) returns (passes: bool)
      requires Shown() && letter != NUL && Prefixed(letter, placeholder)
      ensures passes == (Prefixed(letter, s.Current()) || IsError(s.Current()))
    {
      hide Laid, OnWire, AllReadable, Batches, AllModerate, Moderate, Offset, StringAt, Prefixed, IsError;
      passes := HasPrefix(recvbuf, startOfNetstring, letter, s.Current());
      if !passes {
        passes := CheckMessage(placeholder);
      }
    }

    /** Keeps the token behind the cursor. */
    method ExpectTokenHere(side: Side, letter: char, placeholder: string) returns (ok: bool)
      requires Shown() && letter != NUL && Prefixed(letter, placeholder)
      modifies this
      ensures At(ExpectToken(old(s), side, letter), ok)
    {
      hide Laid, OnWire, AllReadable, Batches, AllModerate, Moderate, Offset, StringAt, Prefixed, IsError,
           TwoBehind, Advance;
      ok := CheckToken(letter, placeholder);
      NeitherWhenEmpty(s, letter);
      if ok {
        KeepToken(startOfNetstring + 2, s.view.next);
        NextMessage();
      } else {
        Report(side);
      }
    }

    /** Keeps the token at the start of the buffer, wherever the cursor is. */
    method ExpectTokenInFront(side: Side, letter: char, placeholder: string) returns (ok: bool)
      requires Shown() && letter != NUL && Prefixed(letter, placeholder)
      modifies this
      ensures At(ExpectFirstToken(old(s), side, letter), ok)
    {
      hide Laid, OnWire, AllReadable, Batches, AllModerate, Moderate, StringAt, Prefixed, IsError, TwoBehind,
           Advance, Layout;
      ok := CheckToken(letter, placeholder);
      NeitherWhenEmpty(s, letter);
      if ok {
        OffsetZero(s.view.ms);
        KeepToken(2, 0);
        Note(Took(s.view.side, s.view.base, token));
        NextMessage();
      } else {
        Report(side);
      }
    }

    method Note(ghost e: Event)
      requires Shown() && !e.Sent?
      modifies `s
      ensures Shown() && s == old(s).(log := old(s).log + [e])
    {
      hide Laid, OnWire, AllReadable, Batches, AllModerate, Moderate, StringAt, Offset;
      QuietOnWire(s.log, controlOut, dataOut, e);
      s := s.(log := s.log + [e]);
    }

    /** `strcpy` of what lies two characters behind message `i`. */
    method KeepToken(p: nat, ghost i: nat)
      requires Shown() && !s.Empty() && i < |s.view.ms| && s.view.ms[i] != "" && p == Offset(s.view.ms, i) + 2
      modifies `token, `s
      ensures Shown() && s == old(s).(token := TwoBehind(old(s).view.ms, i)) && token == s.token
    {
      hide Laid, OnWire, AllReadable, Batches, AllModerate, Moderate, Offset, StringAt, TwoBehind;
      BehindAt(recvbuf[..], s.view.ms, i);
      TwoBehindModerate(s.view.ms, i);
      token := ReadString(recvbuf, p, TwoBehind(s.view.ms, i));
      s := s.(token := token);
    }

    // ---- Reading when there is nothing left -------------------------------------------------

    method RefillIfEmpty(side: Side) returns (ok: bool)
      requires Ready()
      modifies this, recvbuf
      ensures unchanged(`token)
      ensures var r := ReceiveIfEmpty(old(s), side);
              if r.Going? then ok && Shown() && s == r.value else !ok && GaveUp(r.log)
    {
      hide Laid, OnWire, AllReadable, Batches, AllModerate, Moderate, Offset, StringAt, Receive;
      ok := true;
      if netStringsInBuf == 0 {
        ok := Refill(side);
      } else {
        MessageAt(recvbuf[..], s.view.ms, s.view.next);
      }
    }

    method AwaitText(side: Side, expected: string) returns (ok: bool)
      requires Ready() && expected != ""
      modifies this, recvbuf
      ensures At(Await(old(s), side, expected), ok)
    {
      hide Core, Cursor, OnWire, ReceiveIfEmpty, Expect;
      ok := RefillIfEmpty(side);
      if ok {
        ok := ExpectText(side, expected);
      }
    }

    method AwaitFreshText(side: Side, expected: string) returns (ok: bool)
      requires Core() && startOfNetstring == 0 && expected != ""
      modifies this, recvbuf
      ensures At(AwaitFresh(old(s), side, expected), ok)
    {
      hide Core, Cursor, OnWire, Receive, Expect;
      ok := Refill(side);
      if ok {
        ok := ExpectText(side, expected);
      }
    }

    // ---- The phases -------------------------------------------------------------------------

    method RunGreet(u: User) returns (ok: bool)
      requires Ready() && s.Empty() && Presentable(u)
      modifies this, recvbuf, sendbuf
      ensures At(Greet(u, old(s)), ok)
    {
      hide Core, Cursor, OnWire, ReceiveIfEmpty, ExpectToken, AwaitFresh, With, CLIENT_HELLO, SERVER_HELLO, Print, Fits;
      GreetingsFit(u);
      AtStart();
      Send(Control, CLIENT_HELLO);
      AtStart();
      ok := AwaitFreshText(Control, SERVER_HELLO);
      if !ok {
        return;
      }
      Send(Control, With('C', u.nick));
      ok := RefillIfEmpty(Control);
      if ok {
        ok := ExpectTokenHere(Control, 'S', "S <token>");
      }
      if !ok {
        return;
      }
      Send(Control, With('C', Print(u.port)));
    }

    method RunEcho(u: User) returns (ok: bool)
      requires Ready() && Presentable(u)
      modifies this, recvbuf, sendbuf
      ensures At(Echo(u, old(s)), ok)
    {
      hide Core, Cursor, OnWire, AwaitFresh, Await, With, DATA_HELLO;
      GreetingsFit(u);
      ToFront();
      ok := AwaitFreshText(Data, DATA_HELLO);
      if !ok {
        return;
      }
      Send(Data, With('D', u.nick));
      TokenKept();
      TokenFits('T', token);
      ok := AwaitText(Data, With('T', token));
    }

    method RunHandOver(u: User) returns (ok: bool)
      requires Ready() && Presentable(u)
      modifies this, recvbuf, sendbuf
      ensures At(HandOver(u, old(s)), ok)
    {
      hide Core, Cursor, OnWire, ReceiveIfEmpty, ExpectFirstToken, With;
      GreetingsFit(u);
      Send(Data, With('D', u.msg));
      ok := RefillIfEmpty(Data);
      if ok {
        ok := ExpectTokenInFront(Data, 'T', "T <dtoken>");
      }
    }

    method RunFinish(u: User) returns (ok: bool)
      requires Ready() && Presentable(u)
      modifies this, recvbuf, sendbuf
      ensures At(Finish(u, old(s)), ok)
    {
      hide Core, Cursor, OnWire, Await, With, Print, ACK;
      GreetingsFit(u);
      ok := AwaitText(Control, With('S', Print(|u.msg|)));
      if !ok {
        return;
      }
      TokenKept();
      TokenFits('C', token);
      Send(Control, With('C', token));
      ok := AwaitText(Control, ACK);
    }

    /** The whole run, on buffers, is the session on the decoded batches. */
    method RunSession(u: User) returns (ok: bool)
      requires Ready() && s.Empty() && Presentable(u)
      modifies this, recvbuf, sendbuf
      ensures At(Session(u, old(s)), ok)
    {
      hide Core, Cursor, OnWire, Greet, Echo, HandOver, Finish, Presentable;
      ok := RunGreet(u);
      if ok {
        ok := RunEcho(u);
      }
      if ok {
        ok := RunHandOver(u);
      }
      if ok {
        ok := RunFinish(u);
      }
    }

    lemma AtStart()
      requires Ready() && s.Empty()
      ensures Core() && startOfNetstring == 0
    {
    }

    lemma TokenKept()
      requires Ready()
      ensures token == s.token && Moderate(token)
    {
    }

    /** The data phase starts at the front of the buffer, whatever is left in it. */
    method ToFront()
      requires Ready()
      modifies `startOfNetstring
      ensures Core() && startOfNetstring == 0
    {
      startOfNetstring := 0;
    }
  }

  // ---- The program --------------------------------------------------------------------------

  /**
   The program as the two sockets see it: whether it completes, and every byte it writes,
   as functions of what the reads deliver.
   */
  method Assignment4(u: User, controlIn: seq<string>, dataIn: seq<string>)
    returns (ok: bool, controlOut: string, dataOut: string)
    requires AllReadable(controlIn) && AllReadable(dataIn) && Presentable(u)
    ensures var r := Session(u, Start(Batches(controlIn), Batches(dataIn)));
            && ok == r.Going?
            && controlOut == EncodeAll(SentOn(Log(r), Control)) && dataOut == EncodeAll(SentOn(Log(r), Data))
  {
    hide Session, Batches, AllReadable, EncodeAll, SentOn, Presentable;
    var client := new Client(controlIn, dataIn);
    ok := client.RunSession(u);
    controlOut, dataOut := client.controlOut, client.dataOut;
  }

  /** What the reads deliver when the server writes its messages in these groups. */
  function Reads(groups: seq<seq<string>>): seq<string> {
    if groups == [] then [] else [EncodeAll(groups[0])] + Reads(groups[1..])
  }

  function AsBatches(groups: seq<seq<string>>): seq<Batch> {
    if groups == [] then [] else [Messages(groups[0])] + AsBatches(groups[1..])
  }

  /** Groups that fit the receive buffer, as bytes and laid out. */
  predicate Deliverable(groups: seq<seq<string>>) {
    forall g :: g in groups ==> Carried(g, 0) && |EncodeAll(g)| < BUFSIZE
  }

  /** Reading what the server wrote in groups gives the groups back. */
  lemma {:induction false} BatchesOfReads(groups: seq<seq<string>>)
    requires Deliverable(groups)
    ensures AllReadable(Reads(groups)) && Batches(Reads(groups)) == AsBatches(groups)
  {
    hide Carried, Manageable, Decode, EncodeAll;
    if groups != [] {
      var g := groups[0];
      assert g in groups;
      DecodeOfEncodeAll(g, 0);
      EncodeAllHasNoNul(g, 0);
      BatchesOfReads(groups[1..]);
      assert Reads(groups)[1..] == Reads(groups[1..]);
      assert Readable(EncodeAll(g));
    }
  }
}

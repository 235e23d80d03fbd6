/** What passes between the client and a server, text by text. */
module Transcript {
  import opened AsciiClient
  import opened Batching
  import opened Completion
  import opened CStrings
  import opened Decimal
  import opened Delivery
  import opened Handshake
  import opened Netstring
  import opened Reception

  // ---- The messages a server must send ------------------------------------------------------

  predicate Reports(m: string) {
    m != "" && m[0] == 'E'
  }

  /** What follows the letter and the space; for a message of one character, the message itself. */
  function Behind(m: string): string {
    if |m| >= 2 then m[2..] else m
  }

  /** Each message is the one the protocol calls for, or starts with E. */
  predicate PlaysItsPart(msg: string, c: seq<string>, d: seq<string>) {
    && |c| >= 4 && |d| >= 3
    && (c[0] == "S GRNVS V:1.0" || Reports(c[0]))
    && ((|c[1]| >= 2 && c[1][0] == 'S' && c[1][1] == ' ') || Reports(c[1]))
    && (d[0] == "T GRNVS V:1.0" || Reports(d[0]))
    && (d[1] == "T " + Behind(c[1]) || Reports(d[1]))
    && ((|d[2]| >= 2 && d[2][0] == 'T' && d[2][1] == ' ') || Reports(d[2]))
    && (c[2] == "S " + Print(|msg|) || Reports(c[2]))
    && (c[3] == "S ACK" || Reports(c[3]))
  }

  /** The servers that bring the client to the end, in their own words. */
  lemma CooperatesIff(u: User, c: seq<string>, d: seq<string>)
    ensures Cooperates(u, c, d) <==> PlaysItsPart(u.msg, c, d)
  {
    hide Print;
    if |c| >= 4 && |d| >= 3 {
      TextsAre(c[1], Print(|u.msg|));
    }
  }

  lemma TextsAre(token: string, length: string)
    ensures SERVER_HELLO == "S GRNVS V:1.0" && DATA_HELLO == "T GRNVS V:1.0" && ACK == "S ACK"
    ensures CLIENT_HELLO == "C GRNVS V:1.0"
    ensures With('T', TokenOf(token)) == "T " + Behind(token) && With('S', length) == "S " + length
    ensures With('C', length) == "C " + length && With('D', length) == "D " + length
  {
  }

  /**
   The client completes if and only if the server plays its part, for a server that puts
   its batch boundaries where a lock-step server puts them.
   */
  lemma CompletesForIff(u: User, control: seq<Batch>, data: seq<Batch>)
    requires AllMessages(control) && AllMessages(data) && Separated(control, data)
    ensures Session(u, Start(control, data)).Going? <==> PlaysItsPart(u.msg, Flatten(control), Flatten(data))
  {
    hide Session, Start, Flatten, Separated, AllMessages, Cooperates, PlaysItsPart;
    CompletesIff(u, control, data);
    CooperatesIff(u, Flatten(control), Flatten(data));
  }

  // ---- What the client sends ----------------------------------------------------------------

  /** The events of a completed run that send something. */
  lemma CompletedEvents(u: User, control: seq<Batch>, data: seq<Batch>)
    ensures var r := Session(u, Start(control, data));
            r.Going? ==>
              var log := r.value.log;
              && |log| == 14
              && log[0] == Sent(Control, CLIENT_HELLO) && !log[1].Sent?
              && log[2] == Sent(Control, With('C', u.nick)) && !log[3].Sent?
              && log[4] == Sent(Control, With('C', Print(u.port))) && !log[5].Sent?
              && log[6] == Sent(Data, With('D', u.nick)) && !log[7].Sent?
              && log[8] == Sent(Data, With('D', u.msg)) && log[9].Took? && !log[10].Sent?
              && !log[11].Sent? && log[12] == Sent(Control, With('C', log[9].token)) && !log[13].Sent?
  {
    hide Greet, Echo, HandOver, Finish, Start, Passes, Prefixed, IsError, With, Print;
    GreetEvents(u, control, data);
    var r1 := Greet(u, Start(control, data));
    if r1.Going? {
      EchoEvents(u, r1.value, data);
      var r2 := Echo(u, r1.value);
      if r2.Going? {
        HandOverEvents(u, r2.value);
        var r3 := HandOver(u, r2.value);
        if r3.Going? {
          FinishEvents(u, r3.value);
        }
      }
    }
  }

  /** Fourteen events that send these six texts. */
  lemma SentTexts(log: seq<Event>, a: string, b: string, c: string, d: string, e: string, f: string)
    requires |log| == 14
    requires log[0] == Sent(Control, a) && !log[1].Sent? && log[2] == Sent(Control, b) && !log[3].Sent?
    requires log[4] == Sent(Control, c) && !log[5].Sent? && log[6] == Sent(Data, d) && !log[7].Sent?
    requires log[8] == Sent(Data, e) && !log[9].Sent? && !log[10].Sent? && !log[11].Sent?
    requires log[12] == Sent(Control, f) && !log[13].Sent?
    ensures SentOn(log, Control) == [a, b, c, f] && SentOn(log, Data) == [d, e]
  {
    hide SoFar;
    SentNothing(log);
    FirstTexts(log, a, b, c);
    DataTexts(log, [a, b, c], d, e);
    Quiet(log, 11, [a, b, c], [d, e]);
    Said(log, 12, [a, b, c], [d, e], [a, b, c, f], [d, e]);
    Quiet(log, 13, [a, b, c, f], [d, e]);
    AllSent(log, [a, b, c, f], [d, e]);
  }

  /** The texts sent in the first `k` events. */
  predicate SoFar(log: seq<Event>, k: nat, control: seq<string>, data: seq<string>) {
    k <= |log| && SentOn(log[..k], Control) == control && SentOn(log[..k], Data) == data
  }

  lemma SentNothing(log: seq<Event>)
    ensures SoFar(log, 0, [], [])
  {
  }

  lemma AllSent(log: seq<Event>, control: seq<string>, data: seq<string>)
    requires SoFar(log, |log|, control, data)
    ensures SentOn(log, Control) == control && SentOn(log, Data) == data
  {
    assert log[..|log|] == log;
  }

  lemma Quiet(log: seq<Event>, k: nat, control: seq<string>, data: seq<string>)
    requires k < |log| && SoFar(log, k, control, data) && !log[k].Sent?
    ensures SoFar(log, k + 1, control, data)
  {
    assert log[..k + 1] == log[..k] + [log[k]];
    SentMore(log[..k], log[k], Control);
    SentMore(log[..k], log[k], Data);
  }

  lemma Said(log: seq<Event>, k: nat, control: seq<string>, data: seq<string>,
             control': seq<string>, data': seq<string>)
    requires k < |log| && SoFar(log, k, control, data) && log[k].Sent?
    requires control' == if log[k].side == Control then control + [log[k].text] else control
    requires data' == if log[k].side == Data then data + [log[k].text] else data
    ensures SoFar(log, k + 1, control', data')
  {
    assert log[..k + 1] == log[..k] + [log[k]];
    SentMore(log[..k], log[k], Control);
    SentMore(log[..k], log[k], Data);
  }

  lemma FirstTexts(log: seq<Event>, a: string, b: string, c: string)
    requires |log| > 5 && SoFar(log, 0, [], [])
    requires log[0] == Sent(Control, a) && !log[1].Sent? && log[2] == Sent(Control, b) && !log[3].Sent?
    requires log[4] == Sent(Control, c) && !log[5].Sent?
    ensures SoFar(log, 6, [a, b, c], [])
  {
    hide SoFar;
    Said(log, 0, [], [], [a], []);
    Quiet(log, 1, [a], []);
    Said(log, 2, [a], [], [a, b], []);
    Quiet(log, 3, [a, b], []);
    Said(log, 4, [a, b], [], [a, b, c], []);
    Quiet(log, 5, [a, b, c], []);
  }

  lemma DataTexts(log: seq<Event>, control: seq<string>, d: string, e: string)
    requires |log| > 10 && SoFar(log, 6, control, [])
    requires log[6] == Sent(Data, d) && !log[7].Sent? && log[8] == Sent(Data, e) && !log[9].Sent? && !log[10].Sent?
    ensures SoFar(log, 11, control, [d, e])
  {
    hide SoFar;
    Said(log, 6, control, [], control, [d]);
    Quiet(log, 7, control, [d]);
    Said(log, 8, control, [d], control, [d, e]);
    Quiet(log, 9, control, [d, e]);
    Quiet(log, 10, control, [d, e]);
  }

  /** A server that sends the texts of the protocol, with these tokens, where the client can read them. */
  ghost predicate Serves(msg: string, t: string, v: string, control: seq<Batch>, data: seq<Batch>) {
    && AllMessages(control) && AllMessages(data) && Separated(control, data)
    && Flatten(control) == ["S GRNVS V:1.0", "S " + t, "S " + Print(|msg|), "S ACK"]
    && Flatten(data) == ["T GRNVS V:1.0", "T " + t, "T " + v]
  }

  /** The session with such a server: it completes, and these are the texts the client sends. */
  lemma SessionTranscript(u: User, t: string, v: string, control: seq<Batch>, data: seq<Batch>)
    requires Serves(u.msg, t, v, control, data)
    ensures var r := Session(u, Start(control, data));
            && r.Going?
            && SentOn(r.value.log, Control) == ["C GRNVS V:1.0", "C " + u.nick, "C " + Print(u.port), "C " + v]
            && SentOn(r.value.log, Data) == ["D " + u.nick, "D " + u.msg]
  {
    hide Session, Start, Separated, AllMessages, Flatten, Print, SentOn, With;
    CompletesForIff(u, control, data);
    CompletedEvents(u, control, data);
    DataTokenReturned(u, control, data);
    var log := Session(u, Start(control, data)).value.log;
    assert ("T " + v)[2..] == v;
    TextsAre("", u.nick);
    TextsAre("", u.msg);
    TextsAre("", Print(u.port));
    TextsAre("", v);
    SentTexts(log, "C GRNVS V:1.0", "C " + u.nick, "C " + Print(u.port), "D " + u.nick, "D " + u.msg, "C " + v);
  }

  /**
   The program against such a server, octet by octet: for every nickname and message that
   fit, every port, all tokens, and every grouping with the boundaries, it completes and
   writes exactly these netstrings.
   */
  method Converse(nick: string, msg: string, port: nat, ghost t: string, ghost v: string,
                  ghost controlGroups: seq<seq<string>>, ghost dataGroups: seq<seq<string>>,
                  controlIn: seq<string>, dataIn: seq<string>)
    returns (ok: bool, controlOut: string, dataOut: string)
    requires '\0' !in nick && '\0' !in msg && |nick| < 4088 && |msg| < 4088 && port < 65536
    requires Deliverable(controlGroups) && Deliverable(dataGroups)
    requires controlIn == Reads(controlGroups) && dataIn == Reads(dataGroups)
    requires Serves(msg, t, v, AsBatches(controlGroups), AsBatches(dataGroups))
    ensures ok
    ensures controlOut == Encode("C GRNVS V:1.0") + Encode("C " + nick) + Encode("C " + Print(port)) + Encode("C " + v)
    ensures dataOut == Encode("D " + nick) + Encode("D " + msg)
  {
    hide Serves, Deliverable, Reads, AsBatches, Presentable, AllReadable, Batches, Session, Start, SentOn, EncodeAll,
         Encode, Print;
    var u := User(nick, msg, port);
    ArgumentsFit(u);
    BatchesOfReads(controlGroups);
    BatchesOfReads(dataGroups);
    SessionTranscript(u, t, v, AsBatches(controlGroups), AsBatches(dataGroups));
    ok, controlOut, dataOut := Assignment4(u, controlIn, dataIn);
    FourEncoded("C GRNVS V:1.0", "C " + nick, "C " + Print(port), "C " + v);
    TwoEncoded("D " + nick, "D " + msg);
  }

  lemma ArgumentsFit(u: User)
    requires '\0' !in u.nick && '\0' !in u.msg && |u.nick| < 4088 && |u.msg| < 4088 && u.port < 65536
    ensures Presentable(u)
  {
    hide Fits;
    FitsIff(With('C', u.nick));
    FitsIff(With('D', u.msg));
  }

  lemma TwoEncoded(a: string, b: string)
    ensures EncodeAll([a, b]) == Encode(a) + Encode(b)
  {
    hide Encode;
    assert [a, b][1..] == [b] && [b][1..] == [];
    assert EncodeAll([b]) == Encode(b) + EncodeAll([]);
  }

  lemma FourEncoded(a: string, b: string, c: string, d: string)
    ensures EncodeAll([a, b, c, d]) == Encode(a) + Encode(b) + Encode(c) + Encode(d)
  {
    hide Encode;
    assert [a, b, c, d][1..] == [b, c, d] && [b, c, d][1..] == [c, d];
    TwoEncoded(c, d);
    assert EncodeAll([b, c, d]) == Encode(b) + EncodeAll([c, d]);
    assert EncodeAll([a, b, c, d]) == Encode(a) + EncodeAll([b, c, d]);
  }

  // ---- One read for each message ------------------------------------------------------------

  function Alone(ms: seq<string>): seq<seq<string>> {
    if ms == [] then [] else [[ms[0]]] + Alone(ms[1..])
  }

  function Encoded(ms: seq<string>): seq<string> {
    if ms == [] then [] else [Encode(ms[0])] + Encoded(ms[1..])
  }

  predicate Short(m: string) {
    m != "" && '\0' !in m && |m| <= 2047
  }

  lemma {:induction false} AloneReads(ms: seq<string>)
    requires forall i :: 0 <= i < |ms| ==> Short(ms[i])
    ensures Deliverable(Alone(ms)) && Reads(Alone(ms)) == Encoded(ms)
    ensures AsBatches(Alone(ms)) == Singly(ms)
  {
    hide Encode, Short;
    if ms != [] {
      AloneReads(ms[1..]);
      OneCarried(ms[0]);
      assert Alone(ms)[1..] == Alone(ms[1..]);
      DeliverableMore([ms[0]], Alone(ms[1..]));
    }
  }

  lemma DeliverableMore(g: seq<string>, groups: seq<seq<string>>)
    requires Carried(g, 0) && |EncodeAll(g)| < BUFSIZE && Deliverable(groups)
    ensures Deliverable([g] + groups)
  {
  }

  lemma OneCarried(m: string)
    requires Short(m)
    ensures Carried([m], 0) && |EncodeAll([m])| < BUFSIZE && EncodeAll([m]) == Encode(m)
  {
    hide Encode;
    FitsIff(m);
    assert [m][1..] == [] && EncodeAll([m]) == Encode(m) + EncodeAll([]);
  }

  /** A server that sends one netstring at a time, for all tokens of up to 2045 characters. */
  lemma OneByOneServes(msg: string, t: string, v: string)
    requires |msg| < 4088 && '\0' !in t && '\0' !in v && |t| <= 2045 && |v| <= 2045
    ensures var c := ["S GRNVS V:1.0", "S " + t, "S " + Print(|msg|), "S ACK"];
            var d := ["T GRNVS V:1.0", "T " + t, "T " + v];
            && Deliverable(Alone(c)) && Deliverable(Alone(d))
            && Serves(msg, t, v, AsBatches(Alone(c)), AsBatches(Alone(d)))
            && Reads(Alone(c)) == [Encode(c[0]), Encode(c[1]), Encode(c[2]), Encode(c[3])]
            && Reads(Alone(d)) == [Encode(d[0]), Encode(d[1]), Encode(d[2])]
  {
    hide Encode, Print, Deliverable, Reads, Alone, AsBatches, Singly, Flatten, Separated, AllMessages, Short;
    var c := ["S GRNVS V:1.0", "S " + t, "S " + Print(|msg|), "S ACK"];
    var d := ["T GRNVS V:1.0", "T " + t, "T " + v];
    ShortTexts(msg, t, v);
    FourAlone(c[0], c[1], c[2], c[3]);
    ThreeAlone(d[0], d[1], d[2]);
    SinglesSeparated(c, d);
  }

  lemma ShortTexts(msg: string, t: string, v: string)
    requires |msg| < 4088 && '\0' !in t && '\0' !in v && |t| <= 2045 && |v| <= 2045
    ensures Short("S GRNVS V:1.0") && Short("T GRNVS V:1.0") && Short("S ACK")
    ensures Short("S " + t) && Short("T " + t) && Short("T " + v) && Short("S " + Print(|msg|))
  {
    hide Print, Short;
    PrintLength(|msg|);
    PrintShape(|msg|);
    assert !IsDigit('\0');
    ShortConstants();
    ShortToken(t);
    ShortToken(v);
    ShortToken(Print(|msg|));
  }

  lemma ShortConstants()
    ensures Short("S GRNVS V:1.0") && Short("T GRNVS V:1.0") && Short("S ACK")
  {
  }

  lemma ShortToken(t: string)
    requires '\0' !in t && |t| <= 2045
    ensures Short("S " + t) && Short("T " + t)
  {
  }

  lemma SinglesSeparated(c: seq<string>, d: seq<string>)
    ensures AllMessages(Singly(c)) && AllMessages(Singly(d)) && Separated(Singly(c), Singly(d))
    ensures Flatten(Singly(c)) == c && Flatten(Singly(d)) == d
  {
    hide Singly, Flatten, Boundary;
    FlattenSingly(c);
    FlattenSingly(d);
    SinglyHasBoundaries(c, 2);
    SinglyHasBoundaries(d, 2);
    SinglyHasBoundaries(d, 3);
  }

  lemma ThreeAlone(a: string, b: string, c: string)
    requires Short(a) && Short(b) && Short(c)
    ensures var ms := [a, b, c];
            && Deliverable(Alone(ms)) && AsBatches(Alone(ms)) == Singly(ms)
            && Reads(Alone(ms)) == [Encode(a), Encode(b), Encode(c)]
  {
    hide Encode, Deliverable, Reads, Alone, AsBatches, Singly, Short;
    AloneReads([a, b, c]);
    EncodedThree(a, b, c);
  }

  lemma FourAlone(a: string, b: string, c: string, d: string)
    requires Short(a) && Short(b) && Short(c) && Short(d)
    ensures var ms := [a, b, c, d];
            && Deliverable(Alone(ms)) && AsBatches(Alone(ms)) == Singly(ms)
            && Reads(Alone(ms)) == [Encode(a), Encode(b), Encode(c), Encode(d)]
  {
    hide Encode, Deliverable, Reads, Alone, AsBatches, Singly, Short;
    AloneReads([a, b, c, d]);
    EncodedFour(a, b, c, d);
  }

  lemma EncodedThree(a: string, b: string, c: string)
    ensures Encoded([a, b, c]) == [Encode(a), Encode(b), Encode(c)]
  {
    hide Encode;
    assert [a, b, c][1..] == [b, c] && [b, c][1..] == [c] && [c][1..] == [];
    assert Encoded([c]) == [Encode(c)] + Encoded([]);
    assert Encoded([b, c]) == [Encode(b)] + Encoded([c]);
  }

  lemma EncodedFour(a: string, b: string, c: string, d: string)
    ensures Encoded([a, b, c, d]) == [Encode(a), Encode(b), Encode(c), Encode(d)]
  {
    hide Encode;
    assert [a, b, c, d][1..] == [b, c, d];
    EncodedThree(b, c, d);
  }

  /** The first message of every conversation, as it is written. */
  lemma FirstMessage()
    ensures Encode("C GRNVS V:1.0") == "13:C GRNVS V:1.0,"
  {
    assert Print(13) == Print(1) + [DigitChar(3)] && Print(1) == "1";
  }
}

/**
 Whether the grouping of messages into receive batches matters. The reference is the
 server whose every message arrives alone.
 */
module Batching {
  import opened Decimal
  import opened Delivery
  import opened Handshake
  import opened Reception

  // ---- Groupings ----------------------------------------------------------------------------

  /** A server that sends well-formed netstrings: every read delivers at least one message. */
  predicate AllMessages(bs: seq<Batch>) {
    forall b :: b in bs ==> b.Messages? && b.ms != []
  }

  function Singly(ms: seq<string>): (bs: seq<Batch>)
    ensures AllMessages(bs)
  {
    if ms == [] then [] else [Messages([ms[0]])] + Singly(ms[1..])
  }

  lemma {:induction false} FlattenSingly(ms: seq<string>)
    ensures Flatten(Singly(ms)) == ms
  {
    if ms != [] {
      FlattenSingly(ms[1..]);
      assert Singly(ms)[1..] == Singly(ms[1..]);
    }
  }

  /** No batch holds messages from both sides of position `k`. */
  predicate Boundary(bs: seq<Batch>, k: nat)
    requires AllMessages(bs)
  {
    bs == [] || k == 0 || (|bs[0].ms| <= k && Boundary(bs[1..], k - |bs[0].ms|))
  }

  lemma {:induction false} SinglyHasBoundaries(ms: seq<string>, k: nat)
    ensures Boundary(Singly(ms), k)
    decreases k
  {
    if ms != [] && k > 0 {
      SinglyHasBoundaries(ms[1..], k - 1);
      assert Singly(ms)[1..] == Singly(ms[1..]);
    }
  }

  // ---- What is still to be consumed ---------------------------------------------------------

  /** A state whose buffer holds the last batch read from its channel. */
  predicate Coherent(s: State) {
    && AllMessages(s.control.batches) && AllMessages(s.data.batches)
    && Consistent(s)
  }

  function Pending(s: State, side: Side): seq<string>
    requires s.view.next <= |s.view.ms|
  {
    if s.view.side == side then s.view.ms[s.view.next..] else []
  }

  /** The messages of a channel that have not been consumed. */
  function Stream(s: State, side: Side): seq<string>
    requires Coherent(s)
  {
    Pending(s, side) + Flatten(s.InboxOf(side).batches)
  }

  /** A batch boundary lies `k` messages ahead. */
  predicate Ahead(s: State, side: Side, k: nat)
    requires Coherent(s)
  {
    |Pending(s, side)| <= k && Boundary(s.InboxOf(side).batches, k - |Pending(s, side)|)
  }

  /** The buffer is used up, or it holds messages of the channel to be read next. */
  predicate RightSide(s: State, side: Side) {
    s.Empty() || s.view.side == side
  }

  function Other(side: Side): Side {
    if side == Control then Data else Control
  }

  // ---- One message --------------------------------------------------------------------------

  /** A batch received into a used-up buffer. */
  lemma ReceivedBatch(s: State, side: Side)
    requires Coherent(s) && s.Empty() && s.InboxOf(side).batches != []
    ensures var bs := s.InboxOf(side).batches;
            var r := Receive(s, side);
            && r.Going? && Coherent(r.value) && bs[0].Messages? && bs[0].ms != []
            && r.value.log == s.log && r.value.token == s.token && r.value.view.side == side && !r.value.Empty()
            && Pending(s, side) == [] && Pending(s, Other(side)) == []
            && Position(s, side) == s.InboxOf(side).used && Position(s, Other(side)) == s.InboxOf(Other(side)).used
            && r.value.view == View(side, s.InboxOf(side).used, bs[0].ms, 0)
            && Pending(r.value, side) == bs[0].ms && Pending(r.value, Other(side)) == []
            && r.value.InboxOf(side) == Inbox(bs[1..], s.InboxOf(side).used + |bs[0].ms|)
            && r.value.InboxOf(Other(side)) == s.InboxOf(Other(side))
  {
    var bs := s.InboxOf(side).batches;
    assert bs[0] in bs;
    assert Receive(s, side).value.view.ms[0..] == bs[0].ms;
  }

  lemma ReceivedStreams(s: State, side: Side, d: Side)
    requires Coherent(s) && s.Empty() && s.InboxOf(side).batches != []
    ensures var r := Receive(s, side);
            && r.Going? && Coherent(r.value)
            && Stream(r.value, d) == Stream(s, d) && Position(r.value, d) == Position(s, d)
            && Stream(s, side) != []
  {
    hide Coherent, Pending, Receive;
    ReceivedBatch(s, side);
    assert d == side || d == Other(side);
  }

  lemma ReceivedBoundaries(s: State, side: Side, d: Side, k: nat)
    requires Coherent(s) && s.Empty() && s.InboxOf(side).batches != []
    requires d == side ==> k > 0
    ensures Receive(s, side).Going? && Coherent(Receive(s, side).value)
    ensures Ahead(Receive(s, side).value, d, k) <==> Ahead(s, d, k)
  {
    hide Coherent, Pending, Receive;
    ReceivedBatch(s, side);
    assert d == side || d == Other(side);
  }

  /** Receiving if necessary keeps the streams. */
  lemma FetchKeeps(s: State, side: Side)
    requires Coherent(s) && RightSide(s, side)
    ensures var r := ReceiveIfEmpty(s, side);
            && r.Going? && Coherent(r.value)
            && r.value.log == s.log && r.value.token == s.token
            && (forall d: Side :: Stream(r.value, d) == Stream(s, d) && Position(r.value, d) == Position(s, d))
            && (r.value.Empty() <==> Stream(s, side) == [])
            && (!r.value.Empty() ==> r.value.view.side == side)
            && (Stream(s, side) != [] ==>
                  forall d: Side, k: nat :: (d == side ==> k > 0) ==> (Ahead(r.value, d, k) <==> Ahead(s, d, k)))
  {
    hide Coherent, Stream, Position, Ahead, Receive;
    if !s.Empty() {
      StreamWhenHeld(s, side);
    } else if s.InboxOf(side).batches == [] {
      NothingReceived(s, side);
    } else {
      ReceivedBatch(s, side);
      forall d: Side
        ensures Stream(Receive(s, side).value, d) == Stream(s, d)
        ensures Position(Receive(s, side).value, d) == Position(s, d)
        ensures Stream(s, side) != []
      {
        ReceivedStreams(s, side, d);
      }
      forall d: Side, k: nat | d == side ==> k > 0
        ensures Ahead(Receive(s, side).value, d, k) <==> Ahead(s, d, k)
      {
        ReceivedBoundaries(s, side, d, k);
      }
      ReceivedStreams(s, side, side);
    }
  }

  lemma StreamWhenHeld(s: State, side: Side)
    requires Coherent(s) && !s.Empty() && s.view.side == side
    ensures Stream(s, side) != []
  {
    assert Pending(s, side) != [];
  }

  lemma NothingReceived(s: State, side: Side)
    requires Coherent(s) && s.Empty() && s.InboxOf(side).batches == []
    ensures var r := Receive(s, side);
            && r.Going? && Coherent(r.value) && r.value.Empty() && r.value.log == s.log && r.value.token == s.token
            && Stream(s, side) == []
            && forall d: Side :: Stream(r.value, d) == Stream(s, d) && Position(r.value, d) == Position(s, d)
  {
    assert Pending(s, Control) == [] && Pending(s, Data) == [];
  }

  /** Consuming the current message shortens its stream by one. */
  lemma AdvanceKeeps(s: State)
    requires Coherent(s) && !s.Empty()
    ensures var a := Advance(s);
            var side := s.view.side;
            && Coherent(a)
            && Stream(s, side) != [] && s.Current() == Stream(s, side)[0]
            && s.view.base + s.view.next == Position(s, side)
            && Stream(a, side) == Stream(s, side)[1..] && Position(a, side) == Position(s, side) + 1
            && Stream(a, Other(side)) == Stream(s, Other(side)) && Position(a, Other(side)) == Position(s, Other(side))
            && (forall k: nat :: k > 0 ==> (Ahead(a, side, k - 1) <==> Ahead(s, side, k)))
            && (forall k: nat :: Ahead(a, Other(side), k) <==> Ahead(s, Other(side), k))
            && (a.Empty() <==> |Pending(s, side)| == 1)
            && a.view.side == side && a.view.next > 0
  {
    var a := Advance(s);
    var side := s.view.side;
    assert Pending(s, side) == [s.Current()] + Pending(a, side);
  }

  /** `a` is `s` after one message of the channel has been consumed. */
  ghost predicate Stepped(s: State, a: State, side: Side)
    requires Coherent(s)
  {
    && Coherent(a) && a.view.side == side && a.view.next > 0
    && Stream(s, side) != []
    && Stream(a, side) == Stream(s, side)[1..] && Position(a, side) == Position(s, side) + 1
    && Stream(a, Other(side)) == Stream(s, Other(side)) && Position(a, Other(side)) == Position(s, Other(side))
    && (forall k: nat :: k > 0 ==> (Ahead(a, side, k - 1) <==> Ahead(s, side, k)))
    && (forall k: nat :: Ahead(a, Other(side), k) <==> Ahead(s, Other(side), k))
  }

  /** The event of consuming the next message of a channel. */
  function NextGot(s: State, side: Side): Event
    requires Coherent(s) && Stream(s, side) != []
  {
    Got(side, Position(s, side), Stream(s, side)[0])
  }

  lemma FetchThenAdvance(s: State, side: Side)
    requires Coherent(s) && RightSide(s, side)
    requires Stream(s, side) != []
    ensures var f := ReceiveIfEmpty(s, side);
            && f.Going? && !f.value.Empty() && f.value.Current() == Stream(s, side)[0]
            && f.value.log == s.log && f.value.token == s.token
            && var a := Advance(f.value);
            && Stepped(s, a, side) && a.token == s.token
            && a.log == s.log + [NextGot(s, side)]
  {
    hide Stream, Position, Ahead, Coherent, Pending, ReceiveIfEmpty, Advance;
    FetchKeeps(s, side);
    var f := ReceiveIfEmpty(s, side).value;
    AdvanceKeeps(f);
    AdvanceLogs(f);
  }

  lemma AdvanceLogs(s: State)
    ensures var a := Advance(s);
            a.token == s.token && a.log == s.log + [Got(s.view.side, s.view.base + s.view.next, s.Current())]
  {
  }

  /** What is done with the next message of a channel depends on its stream alone. */
  lemma ExpectSteps(s: State, side: Side, expected: string)
    requires Coherent(s) && RightSide(s, side)
    ensures var f := ReceiveIfEmpty(s, side);
            && f.Going? && f.value.token == s.token
            && var r := Expect(f.value, side, expected);
            && (r.Going? <==> Stream(s, side) != [] && Passes(expected, Stream(s, side)[0]))
            && (r.Going? ==> Stepped(s, r.value, side) && r.value.token == s.token
                             && r.value.log == s.log + [NextGot(s, side)])
            && (r.Stopped? ==> r.log == s.log + [Reported(side)])
  {
    hide Stream, Position, Ahead, Coherent, Pending, ReceiveIfEmpty, Advance, Passes, Stepped;
    FetchKeeps(s, side);
    if Stream(s, side) != [] {
      FetchThenAdvance(s, side);
    }
  }

  /** A token at the end of its batch is the message without its first two characters, or its copy. */
  lemma ExpectTokenSteps(s: State, side: Side, letter: char)
    requires Coherent(s) && RightSide(s, side)
    ensures var f := ReceiveIfEmpty(s, side);
            && f.Going?
            && var r := ExpectToken(f.value, side, letter);
            && (r.Going? <==> Stream(s, side) != []
                              && (Prefixed(letter, Stream(s, side)[0]) || IsError(Stream(s, side)[0])))
            && (r.Going? ==> Stepped(s, r.value, side)
                             && r.value.log == s.log + [NextGot(s, side)])
            && (r.Going? && Ahead(s, side, 1) ==> r.value.token == TwoBehind([Stream(s, side)[0]], 0))
            && (r.Stopped? ==> r.log == s.log + [Reported(side)])
  {
    hide Stream, Position, Ahead, Coherent, Pending, ReceiveIfEmpty, Advance, Prefixed, IsError, Stepped, TwoBehind;
    FetchKeeps(s, side);
    if Stream(s, side) != [] {
      FetchThenAdvance(s, side);
      var f := ReceiveIfEmpty(s, side).value;
      if Ahead(s, side, 1) {
        LastInBatch(f, side);
      }
      TokenSet(f, TwoBehind(f.view.ms, f.view.next), s, side);
    }
  }

  lemma LastInBatch(f: State, side: Side)
    requires Coherent(f) && !f.Empty() && f.view.side == side && Ahead(f, side, 1)
    ensures TwoBehind(f.view.ms, f.view.next) == TwoBehind([f.Current()], 0)
  {
  }

  /** Keeping a token changes nothing else. */
  lemma TokenSet(f: State, token: string, s: State, side: Side)
    requires Coherent(s) && Stepped(s, Advance(f), side)
    ensures var a := Advance(f.(token := token));
            Stepped(s, a, side) && a.token == token && a.log == Advance(f).log
  {
    var a, b := Advance(f.(token := token)), Advance(f);
    assert a == b.(token := token);
    SameButToken(a, b);
  }

  lemma SameButToken(a: State, b: State)
    requires Coherent(b) && a.view == b.view && a.control == b.control && a.data == b.data
    ensures Coherent(a)
    ensures forall d: Side :: Stream(a, d) == Stream(b, d) && Position(a, d) == Position(b, d)
    ensures forall d: Side, k: nat :: Ahead(a, d, k) <==> Ahead(b, d, k)
  {
  }

  /** The token taken from the start of the buffer comes from the message only if that is there. */
  lemma ExpectFirstTokenSteps(s: State, side: Side, letter: char)
    requires Coherent(s) && RightSide(s, side)
    ensures var f := ReceiveIfEmpty(s, side);
            && f.Going?
            && var r := ExpectFirstToken(f.value, side, letter);
            && (r.Going? <==> Stream(s, side) != []
                              && (Prefixed(letter, Stream(s, side)[0]) || IsError(Stream(s, side)[0])))
            && (r.Going? ==> Stepped(s, r.value, side)
                             && Position(s, side) >= (if s.Empty() then 0 else s.view.next)
                             && var first := Position(s, side) - (if s.Empty() then 0 else s.view.next);
                             r.value.log == s.log + [Took(side, first, r.value.token)] + [NextGot(s, side)])
            && (r.Going? && s.Empty() && Ahead(s, side, 1) ==> r.value.token == TwoBehind([Stream(s, side)[0]], 0))
            && (r.Stopped? ==> r.log == s.log + [Reported(side)])
  {
    hide Stream, Position, Ahead, Coherent, Pending, ReceiveIfEmpty, Advance, Prefixed, IsError, Stepped, TwoBehind;
    FetchKeeps(s, side);
    if Stream(s, side) != [] {
      FetchThenAdvance(s, side);
      var f := ReceiveIfEmpty(s, side).value;
      BatchStart(s, side);
      var token := TwoBehind(f.view.ms, 0);
      TokenTaken(f, token, s, side);
      if s.Empty() && Ahead(s, side, 1) {
        LastInBatch(f, side);
      }
    }
  }

  lemma BatchStart(s: State, side: Side)
    requires Coherent(s) && RightSide(s, side) && Stream(s, side) != []
    ensures var f := ReceiveIfEmpty(s, side);
            && f.Going? && f.value.view.side == side
            && f.value.view.base == Position(s, side) - (if s.Empty() then 0 else s.view.next)
            && f.value.view.base + f.value.view.next == Position(s, side)
            && (s.Empty() ==> f.value.view.next == 0)
  {
    FetchKeeps(s, side);
  }

  /** Noting the token changes nothing else. */
  lemma TokenTaken(f: State, token: string, s: State, side: Side)
    requires Coherent(s) && Stepped(s, Advance(f), side)
    ensures var e := Took(f.view.side, f.view.base, token);
            var a := Advance(f.(token := token, log := f.log + [e]));
            && Stepped(s, a, side) && a.token == token
            && a.log == f.log + [e] + [Got(f.view.side, f.view.base + f.view.next, f.Current())]
  {
    var a, b := Advance(f.(token := token, log := f.log + [Took(f.view.side, f.view.base, token)])), Advance(f);
    SameButToken(a, b);
  }

  lemma SayKeeps(s: State, side: Side, text: string)
    requires Coherent(s)
    ensures var a := Say(s, side, text);
            && Coherent(a) && a.view == s.view && a.token == s.token && a.log == s.log + [Sent(side, text)]
            && (forall d: Side :: Stream(a, d) == Stream(s, d) && Position(a, d) == Position(s, d))
            && (forall d: Side, k: nat :: Ahead(a, d, k) <==> Ahead(s, d, k))
  {
    SameButToken(Say(s, side, text), s);
  }

  lemma EmptyIff(s: State, side: Side)
    requires Coherent(s) && s.view.side == side
    ensures s.Empty() <==> Ahead(s, side, 0)
  {
  }

  lemma ReceiveWhenEmpty(s: State, side: Side)
    requires s.Empty()
    ensures ReceiveIfEmpty(s, side) == Receive(s, side)
  {
  }

  // ---- Two runs on the same messages --------------------------------------------------------

  /** Two states that differ at most in how the messages to come are grouped. */
  ghost predicate Same(s: State, t: State) {
    && Coherent(s) && Coherent(t) && s.log == t.log && s.token == t.token
    && forall d: Side :: Stream(s, d) == Stream(t, d) && Position(s, d) == Position(t, d)
  }

  ghost predicate SameRun(r: Run<State>, q: Run<State>) {
    if r.Going? then q.Going? && Same(r.value, q.value) else q.Stopped? && r.log == q.log
  }

  lemma SteppedSame(s: State, t: State, a: State, b: State, side: Side)
    requires Same(s, t) && Stepped(s, a, side) && Stepped(t, b, side)
    requires a.log == b.log && a.token == b.token
    ensures Same(a, b)
  {
    forall d: Side
      ensures Stream(a, d) == Stream(b, d) && Position(a, d) == Position(b, d)
    {
      assert d == side || d == Other(side);
    }
  }

  lemma SaySame(s: State, t: State, side: Side, text: string)
    requires Same(s, t)
    ensures Same(Say(s, side, text), Say(t, side, text))
    ensures forall d: Side, k: nat :: Ahead(Say(s, side, text), d, k) <==> Ahead(s, d, k)
    ensures forall d: Side, k: nat :: Ahead(Say(t, side, text), d, k) <==> Ahead(t, d, k)
  {
    SayKeeps(s, side, text);
    SayKeeps(t, side, text);
  }

  /** What a boundary ahead becomes after a step on the channel, and after one on the other. */
  ghost predicate Tracks(s: State, a: State, side: Side)
    requires Coherent(s) && Coherent(a)
  {
    && a.view.side == side
    && (forall k: nat :: k > 0 ==> (Ahead(a, side, k - 1) <==> Ahead(s, side, k)))
    && (forall k: nat :: Ahead(a, Other(side), k) <==> Ahead(s, Other(side), k))
  }

  lemma AwaitSame(s: State, t: State, side: Side, expected: string)
    requires Same(s, t) && RightSide(s, side) && RightSide(t, side)
    ensures var r, q := Await(s, side, expected), Await(t, side, expected);
            && SameRun(r, q)
            && (r.Going? ==> Tracks(s, r.value, side) && Tracks(t, q.value, side))
  {
    hide Stream, Position, Ahead, ReceiveIfEmpty, Expect, Passes, Coherent;
    ExpectSteps(s, side, expected);
    ExpectSteps(t, side, expected);
    var r, q := Await(s, side, expected), Await(t, side, expected);
    if r.Going? {
      SteppedSame(s, t, r.value, q.value, side);
    }
  }

  lemma FreshSame(s: State, t: State, side: Side, expected: string)
    requires Same(s, t) && s.Empty() && t.Empty()
    ensures var r, q := AwaitFresh(s, side, expected), AwaitFresh(t, side, expected);
            && SameRun(r, q)
            && (r.Going? ==> Tracks(s, r.value, side) && Tracks(t, q.value, side))
  {
    hide Same, SameRun, Tracks, ReceiveIfEmpty, Receive, Expect;
    AwaitSame(s, t, side, expected);
    ReceiveWhenEmpty(s, side);
    ReceiveWhenEmpty(t, side);
  }

  lemma TokenSame(s: State, t: State, side: Side, letter: char)
    requires Same(s, t) && RightSide(s, side) && RightSide(t, side)
    requires Ahead(s, side, 1) && Ahead(t, side, 1)
    ensures var r, q := AwaitToken(s, side, letter), AwaitToken(t, side, letter);
            && SameRun(r, q)
            && (r.Going? ==> Tracks(s, r.value, side) && Tracks(t, q.value, side))
  {
    hide Stream, Position, Ahead, ReceiveIfEmpty, ExpectToken, Prefixed, IsError, TwoBehind, Coherent;
    ExpectTokenSteps(s, side, letter);
    ExpectTokenSteps(t, side, letter);
    var r, q := AwaitToken(s, side, letter), AwaitToken(t, side, letter);
    if r.Going? {
      SteppedSame(s, t, r.value, q.value, side);
    }
  }

  lemma FirstTokenSame(s: State, t: State, side: Side, letter: char)
    requires Same(s, t) && s.Empty() && t.Empty()
    requires Ahead(s, side, 1) && Ahead(t, side, 1)
    ensures var r, q := AwaitFirstToken(s, side, letter), AwaitFirstToken(t, side, letter);
            && SameRun(r, q)
            && (r.Going? ==> Tracks(s, r.value, side) && Tracks(t, q.value, side))
  {
    hide Stream, Position, Ahead, ReceiveIfEmpty, ExpectFirstToken, Prefixed, IsError, TwoBehind, Coherent;
    ExpectFirstTokenSteps(s, side, letter);
    ExpectFirstTokenSteps(t, side, letter);
    var r, q := AwaitFirstToken(s, side, letter), AwaitFirstToken(t, side, letter);
    if r.Going? {
      SteppedSame(s, t, r.value, q.value, side);
    }
  }

  // ---- The phases ---------------------------------------------------------------------------

  /** A buffer used up, with the boundaries that the data phase needs. */
  ghost predicate BetweenPhases(s: State) {
    Coherent(s) && s.Empty() && Ahead(s, Data, 2) && Ahead(s, Data, 3)
  }

  lemma GreetSame(u: User, s: State, t: State)
    requires Same(s, t) && BetweenPhases(s) && BetweenPhases(t)
    requires Ahead(s, Control, 2) && Ahead(t, Control, 2)
    ensures var r, q := Greet(u, s), Greet(u, t);
            SameRun(r, q) && (r.Going? ==> BetweenPhases(r.value) && BetweenPhases(q.value))
  {
    hide Stream, Position, Ahead, Coherent, Pending, Say, AwaitFresh, AwaitToken, With, CLIENT_HELLO, SERVER_HELLO;
    var s0, t0 := Say(s, Control, CLIENT_HELLO), Say(t, Control, CLIENT_HELLO);
    SaySame(s, t, Control, CLIENT_HELLO);
    SayKeeps(s, Control, CLIENT_HELLO);
    SayKeeps(t, Control, CLIENT_HELLO);
    FreshSame(s0, t0, Control, SERVER_HELLO);
    var r1, q1 := AwaitFresh(s0, Control, SERVER_HELLO), AwaitFresh(t0, Control, SERVER_HELLO);
    assert Other(Control) == Data;
    if r1.Going? {
      var text := With('C', u.nick);
      SaySame(r1.value, q1.value, Control, text);
      SayKeeps(r1.value, Control, text);
      SayKeeps(q1.value, Control, text);
      var s1, t1 := Say(r1.value, Control, text), Say(q1.value, Control, text);
      TokenSame(s1, t1, Control, 'S');
      var r2, q2 := AwaitToken(s1, Control, 'S'), AwaitToken(t1, Control, 'S');
      if r2.Going? {
        EmptyIff(r2.value, Control);
        EmptyIff(q2.value, Control);
        SaySame(r2.value, q2.value, Control, With('C', Print(u.port)));
        SayKeeps(r2.value, Control, With('C', Print(u.port)));
        SayKeeps(q2.value, Control, With('C', Print(u.port)));
      }
    }
  }

  lemma EchoSame(u: User, s: State, t: State)
    requires Same(s, t) && BetweenPhases(s) && BetweenPhases(t)
    ensures var r, q := Echo(u, s), Echo(u, t);
            && SameRun(r, q)
            && (r.Going? ==> r.value.Empty() && q.value.Empty() && Ahead(r.value, Data, 1) && Ahead(q.value, Data, 1))
  {
    hide Stream, Position, Ahead, Coherent, Pending, Say, AwaitFresh, Await, With, DATA_HELLO;
    FreshSame(s, t, Data, DATA_HELLO);
    var r1, q1 := AwaitFresh(s, Data, DATA_HELLO), AwaitFresh(t, Data, DATA_HELLO);
    if r1.Going? {
      var text := With('D', u.nick);
      SaySame(r1.value, q1.value, Data, text);
      SayKeeps(r1.value, Data, text);
      SayKeeps(q1.value, Data, text);
      var s1, t1 := Say(r1.value, Data, text), Say(q1.value, Data, text);
      AwaitSame(s1, t1, Data, With('T', s1.token));
      var r2, q2 := Await(s1, Data, With('T', s1.token)), Await(t1, Data, With('T', t1.token));
      if r2.Going? {
        EmptyIff(r2.value, Data);
        EmptyIff(q2.value, Data);
      }
    }
  }

  lemma HandOverSame(u: User, s: State, t: State)
    requires Same(s, t) && s.Empty() && t.Empty() && Ahead(s, Data, 1) && Ahead(t, Data, 1)
    ensures var r, q := HandOver(u, s), HandOver(u, t);
            SameRun(r, q) && (r.Going? ==> r.value.Empty() && q.value.Empty())
  {
    hide Stream, Position, Ahead, Coherent, Pending, Say, AwaitFirstToken, With;
    var text := With('D', u.msg);
    SaySame(s, t, Data, text);
    SayKeeps(s, Data, text);
    SayKeeps(t, Data, text);
    var s1, t1 := Say(s, Data, text), Say(t, Data, text);
    FirstTokenSame(s1, t1, Data, 'T');
    var r, q := AwaitFirstToken(s1, Data, 'T'), AwaitFirstToken(t1, Data, 'T');
    if r.Going? {
      EmptyIff(r.value, Data);
      EmptyIff(q.value, Data);
    }
  }

  lemma FinishSame(u: User, s: State, t: State)
    requires Same(s, t) && s.Empty() && t.Empty()
    ensures SameRun(Finish(u, s), Finish(u, t))
  {
    hide Stream, Position, Ahead, Coherent, Pending, Say, Await, With, ACK;
    var length := With('S', Print(|u.msg|));
    AwaitSame(s, t, Control, length);
    var r1, q1 := Await(s, Control, length), Await(t, Control, length);
    if r1.Going? {
      var text := With('C', r1.value.token);
      SaySame(r1.value, q1.value, Control, text);
      SayKeeps(r1.value, Control, text);
      SayKeeps(q1.value, Control, text);
      AwaitSame(Say(r1.value, Control, text), Say(q1.value, Control, text), Control, ACK);
    }
  }

  lemma SessionSame(u: User, s: State, t: State)
    requires Same(s, t) && BetweenPhases(s) && BetweenPhases(t)
    requires Ahead(s, Control, 2) && Ahead(t, Control, 2)
    ensures SameRun(Session(u, s), Session(u, t))
  {
    hide Same, BetweenPhases, Ahead, Greet, Echo, HandOver, Finish;
    GreetSame(u, s, t);
    var r1, q1 := Greet(u, s), Greet(u, t);
    if r1.Going? {
      EchoSame(u, r1.value, q1.value);
      var r2, q2 := Echo(u, r1.value), Echo(u, q1.value);
      if r2.Going? {
        HandOverSame(u, r2.value, q2.value);
        var r3, q3 := HandOver(u, r2.value), HandOver(u, q2.value);
        if r3.Going? {
          FinishSame(u, r3.value, q3.value);
        }
      }
    }
  }

  // ---- Batching does not change the protocol ------------------------------------------------

  /**
   The boundaries a server makes that waits for the client before it sends the data token,
   and before it goes on after the control token and after the data token.
   */
  predicate Separated(control: seq<Batch>, data: seq<Batch>)
    requires AllMessages(control) && AllMessages(data)
  {
    Boundary(control, 2) && Boundary(data, 2) && Boundary(data, 3)
  }

  lemma StartState(control: seq<Batch>, data: seq<Batch>)
    requires AllMessages(control) && AllMessages(data)
    ensures var s := Start(control, data);
            && Coherent(s) && s.Empty()
            && Stream(s, Control) == Flatten(control) && Stream(s, Data) == Flatten(data)
            && Position(s, Control) == Position(s, Data) == 0
            && (forall k: nat :: Ahead(s, Control, k) <==> Boundary(control, k))
            && (forall k: nat :: Ahead(s, Data, k) <==> Boundary(data, k))
  {
  }

  lemma StartsSame(control: seq<Batch>, data: seq<Batch>, c: seq<Batch>, d: seq<Batch>)
    requires AllMessages(control) && AllMessages(data) && AllMessages(c) && AllMessages(d)
    requires Flatten(c) == Flatten(control) && Flatten(d) == Flatten(data)
    ensures Same(Start(control, data), Start(c, d))
  {
    hide Stream, Position, Flatten, Coherent;
    StartState(control, data);
    StartState(c, d);
    forall side: Side
      ensures Stream(Start(control, data), side) == Stream(Start(c, d), side)
      ensures Position(Start(control, data), side) == Position(Start(c, d), side)
    {
      if side == Control {} else {}
    }
  }

  /** With these boundaries the client does what it does when every message arrives alone. */
  lemma BatchingHarmless(u: User, control: seq<Batch>, data: seq<Batch>)
    requires AllMessages(control) && AllMessages(data) && Separated(control, data)
    ensures var r := Session(u, Start(control, data));
            var q := Session(u, Start(Singly(Flatten(control)), Singly(Flatten(data))));
            Log(r) == Log(q) && (r.Going? <==> q.Going?)
  {
    hide Session, Stream, Position, Ahead, Flatten, Singly, Boundary, Coherent;
    var c, d := Singly(Flatten(control)), Singly(Flatten(data));
    FlattenSingly(Flatten(control));
    FlattenSingly(Flatten(data));
    SinglyHasBoundaries(Flatten(control), 2);
    SinglyHasBoundaries(Flatten(data), 2);
    SinglyHasBoundaries(Flatten(data), 3);
    StartState(control, data);
    StartState(c, d);
    StartsSame(control, data, c, d);
    SessionSame(u, Start(control, data), Start(c, d));
  }

  // ---- And where it is harmful --------------------------------------------------------------

  /** After the greeting two control messages are consumed; what else their batches held is in the buffer. */
  lemma GreetTracks(u: User, control: seq<Batch>, data: seq<Batch>)
    requires AllMessages(control) && AllMessages(data)
    ensures var r := Greet(u, Start(control, data));
            r.Going? ==>
              && Coherent(r.value) && r.value.view.side == Control && Position(r.value, Control) == 2
              && (r.value.Empty() <==> Boundary(control, 2))
  {
    hide Stream, Position, Ahead, Coherent, Pending, Say, ReceiveIfEmpty, Receive, Expect, ExpectToken, With,
         CLIENT_HELLO, SERVER_HELLO, Boundary, Start, Print;
    StartState(control, data);
    var s0 := Start(control, data);
    SayKeeps(s0, Control, CLIENT_HELLO);
    var s1 := Say(s0, Control, CLIENT_HELLO);
    ReceiveWhenEmpty(s1, Control);
    ExpectSteps(s1, Control, SERVER_HELLO);
    var r1 := AwaitFresh(s1, Control, SERVER_HELLO);
    if r1.Going? {
      SayKeeps(r1.value, Control, With('C', u.nick));
      var s2 := Say(r1.value, Control, With('C', u.nick));
      ExpectTokenSteps(s2, Control, 'S');
      var r2 := AwaitToken(s2, Control, 'S');
      if r2.Going? {
        EmptyIff(r2.value, Control);
        SayKeeps(r2.value, Control, With('C', Print(u.port)));
      }
    }
  }

  /** The buffer as the data phase finds it, once its first read has dropped what it held. */
  function Dropped(s: State): State {
    s.(view := View(Data, s.data.used, [], 0))
  }

  lemma DroppedState(s: State, data: seq<Batch>)
    requires Coherent(s) && s.data == Inbox(data, 0)
    ensures var d := Dropped(s);
            && Coherent(d) && d.Empty() && Receive(d, Data) == Receive(s, Data) && Position(d, Data) == 0
            && (forall k: nat :: Ahead(d, Data, k) <==> Boundary(data, k))
  {
  }

  /** After the echo two data messages are consumed, and at least one from the batch in the buffer. */
  lemma EchoTracks(u: User, g: State, data: seq<Batch>)
    requires Coherent(g) && g.data == Inbox(data, 0)
    ensures var r := Echo(u, g);
            r.Going? ==>
              && Coherent(r.value) && r.value.view.side == Data && r.value.view.next > 0 && Position(r.value, Data) == 2
              && (r.value.Empty() <==> Boundary(data, 2)) && (Ahead(r.value, Data, 1) <==> Boundary(data, 3))
  {
    hide Stream, Position, Ahead, Coherent, Pending, Say, ReceiveIfEmpty, Receive, Expect, With, DATA_HELLO, Boundary,
         Dropped;
    DroppedState(g, data);
    ReceiveWhenEmpty(Dropped(g), Data);
    ExpectSteps(Dropped(g), Data, DATA_HELLO);
    var r1 := AwaitFresh(g, Data, DATA_HELLO);
    if r1.Going? {
      SayKeeps(r1.value, Data, With('D', u.nick));
      var s1 := Say(r1.value, Data, With('D', u.nick));
      ExpectSteps(s1, Data, With('T', r1.value.token));
      var r2 := Await(s1, Data, With('T', r1.value.token));
      if r2.Going? {
        EmptyIff(r2.value, Data);
      }
    }
  }

  /** The data phase leaves the control channel alone. */
  lemma DataLeavesControl(u: User, s: State)
    ensures var r := Echo(u, s); r.Going? ==> r.value.control == s.control
    ensures var r := HandOver(u, s); r.Going? ==> r.value.control == s.control
  {
    hide Passes, Prefixed, IsError, With, DATA_HELLO, TwoBehind;
  }

  /** The kept data token is the message at the start of the buffer, `next` before the one consumed. */
  lemma HandOverTracks(u: User, e: State)
    requires Coherent(e) && e.view.side == Data && Position(e, Data) == 2 && |e.log| == 8
    ensures var r := HandOver(u, e);
            r.Going? ==>
              && Coherent(r.value) && r.value.view.side == Data && (r.value.Empty() <==> Ahead(e, Data, 1))
              && |r.value.log| == 11 && r.value.log[9].Took?
              && r.value.log[9].index == 2 - (if e.Empty() then 0 else e.view.next)
  {
    hide Stream, Position, Ahead, Coherent, Pending, Say, ReceiveIfEmpty, ExpectFirstToken, With, NextGot;
    SayKeeps(e, Data, With('D', u.msg));
    var s := Say(e, Data, With('D', u.msg));
    ExpectFirstTokenSteps(s, Data, 'T');
    var r := AwaitFirstToken(s, Data, 'T');
    if r.Going? {
      EmptyIff(r.value, Data);
    }
  }

  /** The length is looked for on the control channel only if the buffer is used up. */
  lemma FinishTracks(u: User, h: State)
    requires h.view.side == Data && |h.log| == 11
    ensures var r := Finish(u, h);
            r.Going? ==>
              && h.log <= r.value.log && |r.value.log| == 14 && r.value.log[11].Got? && r.value.log[13].Got?
              && (r.value.log[11].side == Control <==> h.Empty())
              && (h.Empty() ==> r.value.log[11].index == h.control.used
                                && Consumed(r.value.log[13], Control, h.control.used + 1))
  {
    hide Passes, IsError, ACK, With, Print;
  }

  /** A completed run that took every message as it was meant. */
  predicate InOrder(log: seq<Event>) {
    && |log| == 14
    && log[9].Took? && log[9].index == 2
    && Consumed(log[11], Control, 2) && Consumed(log[13], Control, 3)
  }

  lemma UsedAtPhaseEnd(g: State)
    requires Coherent(g) && g.view.side == Control && Position(g, Control) == 2
    ensures g.control.used == 2 <==> g.Empty()
  {
  }

  /**
   What each boundary is for, in a run that completes: the data token is kept from the
   third data message exactly if a batch ends before it; the length is read from the
   control channel exactly if a batch ends after it; and then it is the third control
   message exactly if a batch ends after the second. All three together are a run in order.
   */
  lemma InOrderIff(u: User, control: seq<Batch>, data: seq<Batch>)
    requires AllMessages(control) && AllMessages(data)
    ensures var r := Session(u, Start(control, data));
            r.Going? ==>
              var log := r.value.log;
              && |log| == 14 && log[9].Took? && log[11].Got?
              && (log[9].index == 2 <==> Boundary(data, 2))
              && (log[11].side == Control <==> Boundary(data, 3))
              && (log[11].side == Control ==> (log[11].index == 2 <==> Boundary(control, 2)))
              && (InOrder(log) <==> Separated(control, data))
  {
    hide Greet, Echo, HandOver, Finish, Start, Coherent, Position, Ahead, Boundary, Greeted, Echoed, Delivered;
    GreetEvents(u, control, data);
    GreetTracks(u, control, data);
    var r1 := Greet(u, Start(control, data));
    if r1.Going? {
      var g := r1.value;
      UsedAtPhaseEnd(g);
      EchoTracks(u, g, data);
      EchoEvents(u, g, data);
      DataLeavesControl(u, g);
      var r2 := Echo(u, g);
      if r2.Going? {
        var e := r2.value;
        HandOverTracks(u, e);
        DataLeavesControl(u, e);
        var r3 := HandOver(u, e);
        if r3.Going? {
          FinishTracks(u, r3.value);
        }
      }
    }
  }

  /** With these boundaries the token that a completed run returns is the one in the third data message. */
  lemma DataTokenReturned(u: User, control: seq<Batch>, data: seq<Batch>)
    requires AllMessages(control) && AllMessages(data) && Separated(control, data)
    ensures var r := Session(u, Start(control, data));
            r.Going? ==>
              && |Flatten(data)| > 2 && |r.value.log| == 14
              && (|Flatten(data)[2]| >= 2 ==> r.value.log[12] == Sent(Control, With('C', Flatten(data)[2][2..])))
  {
    hide Session, Start, Separated, With, Flatten;
    InOrderIff(u, control, data);
    CompletionMeans(u, control, data);
    ConsumesInSequence(u, control, data);
    var r := Session(u, Start(control, data));
    if r.Going? {
      assert Genuine(r.value.log[9], Streams(Flatten(control), Flatten(data)));
      DataTokenSide(u, control, data);
    }
  }

  lemma DataTokenSide(u: User, control: seq<Batch>, data: seq<Batch>)
    ensures var r := Session(u, Start(control, data));
            r.Going? ==> |r.value.log| == 14 && r.value.log[9].Took? && r.value.log[9].side == Data
  {
    hide Greet, Echo, HandOver, Finish, Start;
    GreetEvents(u, control, data);
    var r1 := Greet(u, Start(control, data));
    if r1.Going? {
      EchoEvents(u, r1.value, data);
      var r2 := Echo(u, r1.value);
      if r2.Going? {
        HandOverEvents(u, r2.value);
        var r3 := HandOver(u, r2.value);
        if r3.Going? {
          FinishEvents(u, r3.value);
        }
      }
    }
  }

  const HAZARD_USER := User("me", "hi", 4)
  const HAZARD_CONTROL := [Messages([SERVER_HELLO]), Messages(["S 1"]), Messages(["S 2"]), Messages([ACK])]
  const HAZARD_DATA := [Messages([DATA_HELLO]), Messages(["T 1", "T 9"])]

  lemma HazardGreeting()
    ensures var r := Greet(HAZARD_USER, Start(HAZARD_CONTROL, HAZARD_DATA));
            && r.Going? && r.value.token == "1" && r.value.view == View(Control, 1, ["S 1"], 1)
            && r.value.control == Inbox([Messages(["S 2"]), Messages([ACK])], 2)
            && r.value.data == Inbox(HAZARD_DATA, 0)
  {
    hide Print;
    assert HAZARD_CONTROL[1..] == [Messages(["S 1"]), Messages(["S 2"]), Messages([ACK])];
    assert HAZARD_CONTROL[1..][1..] == [Messages(["S 2"]), Messages([ACK])];
  }

  lemma HazardEcho(g: State)
    requires g.token == "1" && g.data == Inbox(HAZARD_DATA, 0)
    ensures var r := Echo(HAZARD_USER, g);
            && r.Going? && r.value.view == View(Data, 1, ["T 1", "T 9"], 1) && r.value.control == g.control
  {
    assert HAZARD_DATA[1..] == [Messages(["T 1", "T 9"])];
  }

  lemma HazardHandOver(e: State)
    requires e.view == View(Data, 1, ["T 1", "T 9"], 1)
    ensures var r := HandOver(HAZARD_USER, e);
            r.Going? && r.value.token == "1" && r.value.Empty() && r.value.control == e.control
  {
  }

  lemma HazardFinish(h: State)
    requires h.token == "1" && h.Empty() && h.control == Inbox([Messages(["S 2"]), Messages([ACK])], 2)
    ensures Finish(HAZARD_USER, h).Going?
  {
    assert Print(2) == "2";
    assert h.control.batches[1..] == [Messages([ACK])];
  }

  /** The hazard: if the data token comes with the echo, the run completes and returns the wrong token. */
  lemma WrongTokenReturned()
    ensures AllMessages(HAZARD_CONTROL) && AllMessages(HAZARD_DATA) && !Separated(HAZARD_CONTROL, HAZARD_DATA)
    ensures HAZARD_DATA[1].ms[1] == With('T', "9")
    ensures var r := Session(HAZARD_USER, Start(HAZARD_CONTROL, HAZARD_DATA));
            r.Going? && |r.value.log| == 14 && r.value.log[12] == Sent(Control, With('C', "1"))
  {
    hide Greet, Echo, HandOver, Finish, HAZARD_USER, HAZARD_CONTROL, HAZARD_DATA, Start, Boundary;
    HazardGreeting();
    var g := Greet(HAZARD_USER, Start(HAZARD_CONTROL, HAZARD_DATA)).value;
    HazardEcho(g);
    var e := Echo(HAZARD_USER, g).value;
    HazardHandOver(e);
    var h := HandOver(HAZARD_USER, e).value;
    HazardFinish(h);
    HazardShape();
    GreetEvents(HAZARD_USER, HAZARD_CONTROL, HAZARD_DATA);
    EchoEvents(HAZARD_USER, g, HAZARD_DATA);
    HandOverEvents(HAZARD_USER, e);
    FinishEvents(HAZARD_USER, h);
  }

  lemma HazardShape()
    ensures AllMessages(HAZARD_CONTROL) && AllMessages(HAZARD_DATA) && !Separated(HAZARD_CONTROL, HAZARD_DATA)
    ensures |HAZARD_DATA| == 2 && HAZARD_DATA[1] == Messages(["T 1", With('T', "9")])
  {
    assert With('T', "9") == "T 9";
    var bs := HAZARD_DATA[1..];
    assert !Boundary(bs, 1);
  }
}

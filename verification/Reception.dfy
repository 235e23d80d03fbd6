/** Receiving a batch of netstrings: decoded in place, laid out as consecutive C strings. */
module Reception {
  import opened CStrings
  import opened Decimal
  import opened Netstring

  // ---- Layout -------------------------------------------------------------------------------

  /** Consecutive C strings. */
  function Layout(ms: seq<string>): string {
    if ms == [] then "" else ms[0] + [NUL] + Layout(ms[1..])
  }

  lemma {:induction false} LayoutAppend(ms: seq<string>, ns: seq<string>)
    ensures Layout(ms + ns) == Layout(ms) + Layout(ns)
  {
    if ms == [] {
      assert ms + ns == ns;
    } else {
      assert (ms + ns)[1..] == ms[1..] + ns;
      LayoutAppend(ms[1..], ns);
    }
  }

  lemma LayoutOne(ms: seq<string>, m: string)
    ensures Layout(ms + [m]) == Layout(ms) + m + [NUL]
  {
    LayoutAppend(ms, [m]);
    assert Layout([m]) == m + [NUL] + Layout([]);
  }

  function Offset(ms: seq<string>, i: nat): nat
    requires i <= |ms|
  {
    |Layout(ms[..i])|
  }

  /** The offset of a message is the sum of the sizes of those before it. */
  lemma OffsetStep(ms: seq<string>, i: nat)
    requires i < |ms|
    ensures Offset(ms, 0) == 0
    ensures Offset(ms, i + 1) == Offset(ms, i) + |ms[i]| + 1
  {
    assert ms[..i + 1] == ms[..i] + [ms[i]];
    LayoutOne(ms[..i], ms[i]);
  }

  predicate NulFree(ms: seq<string>) {
    forall m :: m in ms ==> NUL !in m
  }

  /** A buffer that starts with the laid-out messages, and repeats the last one behind them. */
  predicate Laid(s: seq<char>, ms: seq<string>) {
    && NulFree(ms) && |Layout(ms)| < |s| && s[..|Layout(ms)|] == Layout(ms)
    && StringAt(s, |Layout(ms)|, if ms == [] then "" else ms[|ms| - 1])
  }

  /** Message `i` is the C string at its offset, the duplicate the one at the end. */
  lemma MessageAt(s: seq<char>, ms: seq<string>, i: nat)
    requires Laid(s, ms) && i <= |ms| && ms != []
    ensures Offset(ms, i) < |s|
    ensures StringAt(s, Offset(ms, i), if i < |ms| then ms[i] else ms[|ms| - 1])
  {
    hide Layout;
    assert ms[..|ms|] == ms;
    if i < |ms| {
      LayoutSplit(ms, i);
      LayoutPart(s, Layout(ms[..i]), ms[i], Layout(ms[i + 1..]));
      assert ms[i] in ms;
    }
  }

  /** The buffer and the number of messages in it determine the messages. */
  lemma LaidUnique(s: seq<char>, ms: seq<string>, ns: seq<string>)
    requires Laid(s, ms) && Laid(s, ns) && |ms| == |ns|
    ensures ms == ns
  {
    LaidSame(s, ms, ns, |ms|);
    assert ms[..|ms|] == ms && ns[..|ms|] == ns;
  }

  lemma {:induction false} LaidSame(s: seq<char>, ms: seq<string>, ns: seq<string>, i: nat)
    requires Laid(s, ms) && Laid(s, ns) && i <= |ms| == |ns|
    ensures ms[..i] == ns[..i]
    decreases i
  {
    hide Laid, Layout, StringAt;
    if i > 0 {
      LaidSame(s, ms, ns, i - 1);
      MessageAt(s, ms, i - 1);
      MessageAt(s, ns, i - 1);
      StringAtUnique(s, Offset(ms, i - 1), ms[i - 1], ns[i - 1]);
      assert ms[..i] == ms[..i - 1] + [ms[i - 1]] && ns[..i] == ns[..i - 1] + [ns[i - 1]];
    }
  }

  lemma LayoutSplit(ms: seq<string>, i: nat)
    requires i < |ms|
    ensures Layout(ms) == Layout(ms[..i]) + (ms[i] + [NUL] + Layout(ms[i + 1..]))
  {
    hide Layout;
    LayoutAppend(ms[..i], [ms[i]] + ms[i + 1..]);
    LayoutFront(ms[i], ms[i + 1..]);
    assert ms == ms[..i] + ([ms[i]] + ms[i + 1..]);
  }

  lemma LayoutFront(m: string, ms: seq<string>)
    ensures Layout([m] + ms) == m + [NUL] + Layout(ms)
  {
  }

  lemma LayoutPart(s: seq<char>, before: string, m: string, after: string)
    requires var l := before + (m + [NUL] + after); |l| <= |s| && s[..|l|] == l
    ensures |before| + |m| < |s|
    ensures s[|before|..|before| + |m|] == m && s[|before| + |m|] == NUL
  {
    var l := before + (m + [NUL] + after);
    assert l[|before|..|before| + |m|] == m;
    assert s[..|l|][|before|..|before| + |m|] == s[|before|..|before| + |m|];
  }

  // ---- Decoding a batch ---------------------------------------------------------------------

  datatype Batch = Messages(ms: seq<string>) | Rejected(complaint: Complaint)

  /** The texts the receive loop can handle: defined at every step, with room for each copy. */
  predicate Manageable(text: string, used: nat)
    decreases |text|
  {
    text == "" ||
    (Defined(text) &&
     match Parse(text)
     case Reject(_) => true
     case Accept(m, rest) => used + 2 * (|m| + 1) <= BUFSIZE && Manageable(rest, used + |m| + 1))
  }

  function Decode(text: string, used: nat): Batch
    requires Manageable(text, used)
    decreases |text|
  {
    if text == "" then Messages([])
    else
      match Parse(text)
      case Reject(complaint) => Rejected(complaint)
      case Accept(m, rest) => Prepend([m], Decode(rest, used + |m| + 1))
  }

  function Prepend(done: seq<string>, b: Batch): Batch {
    match b
    case Messages(ms) => Messages(done + ms)
    case Rejected(_) => b
  }

  lemma PrependTwice(done: seq<string>, m: string, b: Batch)
    ensures Prepend(done, Prepend([m], b)) == Prepend(done + [m], b)
  {
    if b.Messages? {
      assert done + ([m] + b.ms) == (done + [m]) + b.ms;
    }
  }

  function EncodeAll(ms: seq<string>): string {
    if ms == [] then "" else Encode(ms[0]) + EncodeAll(ms[1..])
  }

  /** Messages that the protocol can carry, with room for each of them and its copy. */
  predicate Carried(ms: seq<string>, used: nat)
    decreases |ms|
  {
    ms == [] || (ms[0] != "" && NUL !in ms[0] && used + 2 * (|ms[0]| + 1) <= BUFSIZE
                 && Carried(ms[1..], used + |ms[0]| + 1))
  }

  /** The batch round trip, on values. */
  lemma {:induction false} DecodeOfEncodeAll(ms: seq<string>, used: nat)
    requires Carried(ms, used)
    ensures Manageable(EncodeAll(ms), used)
    ensures Decode(EncodeAll(ms), used) == Messages(ms)
    decreases |ms|
  {
    if ms != [] {
      DecodeOfEncodeAll(ms[1..], used + |ms[0]| + 1);
      DecodeFirst(ms, used);
    }
  }

  lemma DecodeFirst(ms: seq<string>, used: nat)
    requires ms != [] && Carried(ms, used)
    requires var rest, next := EncodeAll(ms[1..]), used + |ms[0]| + 1;
             Manageable(rest, next) && Decode(rest, next) == Messages(ms[1..])
    ensures Manageable(EncodeAll(ms), used)
    ensures Decode(EncodeAll(ms), used) == Messages(ms)
  {
    hide Encode, Parse, Defined, Carried;
    CarriedFirst(ms, used);
    ParseOfEncode(ms[0], EncodeAll(ms[1..]));
    EncodeNotEmpty(ms[0]);
    assert ms == [ms[0]] + ms[1..];
  }

  lemma CarriedFirst(ms: seq<string>, used: nat)
    requires ms != [] && Carried(ms, used)
    ensures ms[0] != "" && NUL !in ms[0] && used + 2 * (|ms[0]| + 1) <= BUFSIZE
    ensures Carried(ms[1..], used + |ms[0]| + 1)
  {
  }

  lemma EncodeNotEmpty(m: string)
    ensures Encode(m) != ""
  {
  }

  /** A batch of carried messages is a text that the receive loop can handle. */
  lemma {:induction false} EncodeAllHasNoNul(ms: seq<string>, used: nat)
    requires Carried(ms, used)
    ensures NUL !in EncodeAll(ms)
    decreases |ms|
  {
    if ms != [] {
      EncodeHasNoNul(ms[0]);
      EncodeAllHasNoNul(ms[1..], used + |ms[0]| + 1);
    }
  }

  // ---- The code -----------------------------------------------------------------------------

  /** `strncpy` towards the front of the same array. */
  method StrNCpyDown(a: array<char>, src: nat, n: nat, ghost t: string)
    requires StringAt(a[..], src, t) && n <= |t|
    modifies a
    ensures a[..n] == t[..n]
    ensures forall j :: n <= j < a.Length ==> a[j] == old(a[j])
  {
    ghost var s := a[..];
    var i := 0;
    while i < n
      invariant i <= n
      invariant a[..i] == t[..i]
      invariant forall j :: i <= j < a.Length ==> a[j] == s[j]
    {
      CharAt(s, src, t, i);
      a[i] := a[src + i];
      i := i + 1;
    }
  }

  datatype NetRead = Next(pos: nat) | Exit(complaint: Complaint)

  /**
   Extracts the netstring at `next` to the front of the same buffer. The message overwrites
   what it is read from, but never what follows it.
   */
  method ReadNet(buf: array<char>, next: nat, curMessageLength: nat, ghost text: string) returns (r: NetRead)
    requires buf.Length == BUFSIZE && StringAt(buf[..], next, text) && Defined(text)
    requires Parse(text).Accept? ==> |Parse(text).message| + curMessageLength <= BUFSIZE
    modifies buf
    ensures Parse(text).Reject? ==> r == Exit(Parse(text).complaint) && buf[..] == old(buf[..])
    ensures Parse(text).Accept? ==>
              && r.Next? && r.pos > next
              && StringAt(buf[..], 0, Parse(text).message) && StringAt(buf[..], r.pos, Parse(text).rest)
  {
    hide Index, Atol, Silences, StringAt;
    var colon := StrChr(buf, next, ':', text);
    var comma := StrChr(buf, next, ',', text);
    var length := StrLen(buf, next, text);
    if colon == length || comma < colon {
      return Exit(BadFormat);
    }
    CharAt(buf[..], next, text, 0);
    if buf[next] == '0' {
      return Exit(LeadingZero);
    }
    FrontAt(buf[..], next, text, colon);
    var num := buf[next..next + colon];
    var strLength := Atol(num);
    if comma == length {
      return Exit(BadFormat);
    }
    ParseAccepts(text, colon + 1, strLength);
    Extract(buf, next, colon + 1, strLength, text);
    r := Next(next + colon + strLength + 2);
  }

  /** Copies the payload to the front of the buffer and ends it there. */
  method Extract(buf: array<char>, next: nat, start: nat, n: nat, ghost text: string)
    requires StringAt(buf[..], next, text) && start > 0 && start + n + 1 <= |text|
    modifies buf
    ensures StringAt(buf[..], 0, text[start..start + n])
    ensures StringAt(buf[..], next + start + n + 1, text[start + n + 1..])
  {
    ghost var s := buf[..];
    SuffixAt(s, next, text, start);
    StrNCpyDown(buf, next + start, n, text[start..]);
    assert buf[..n] == text[start..start + n];
    buf[n] := NUL;
    Extracted(s, buf[..], next, text, start, n);
  }

  lemma FrontAt(s: seq<char>, p: nat, t: string, n: nat)
    requires StringAt(s, p, t) && n <= |t|
    ensures p + |t| < |s| && s[p..p + n] == t[..n]
  {
    assert s[p..p + n] == s[p..p + |t|][..n];
  }

  lemma Extracted(before: seq<char>, after: seq<char>, next: nat, text: string, start: nat, n: nat)
    requires StringAt(before, next, text) && start > 0 && start + n + 1 <= |text|
    requires |after| == |before| && after[..n] == text[start..start + n] && after[n] == NUL
    requires forall j :: n < j < |after| ==> after[j] == before[j]
    ensures StringAt(after, 0, text[start..start + n])
    ensures StringAt(after, next + start + n + 1, text[start + n + 1..])
  {
    SuffixAt(before, next, text, start + n + 1);
    var p, rest := next + start + n + 1, text[start + n + 1..];
    assert after[p..p + |rest|] == before[p..p + |rest|];
    assert forall c :: c in text[start..start + n] ==> c in text;
  }

  datatype Received = Count(nets: int) | Exited(complaint: Complaint)

  /** The receive loop between two netstrings. */
  predicate Receiving(respDst: seq<char>, message_length: nat, done: seq<string>) {
    Laid(respDst, done) && message_length == |Layout(done)|
  }

  lemma WrittenTwice(s: seq<char>, p: nat, m: string)
    requires p + 2 * (|m| + 1) <= |s| && NUL !in m
    ensures var u := Written(Written(s, p, m), p + |m| + 1, m);
            && u[..p + |m| + 1] == s[..p] + m + [NUL]
            && StringAt(u, p + |m| + 1, m)
  {
    WrittenIsString(s, p, m);
    WrittenIsString(Written(s, p, m), p + |m| + 1, m);
  }

  lemma NulFreeAppend(ms: seq<string>, m: string)
    requires NulFree(ms) && NUL !in m
    ensures NulFree(ms + [m])
  {
  }

  /** Printing a message behind those laid out, and its copy behind that. */
  lemma LaidStep(s: seq<char>, done: seq<string>, m: string)
    requires Laid(s, done) && NUL !in m && |Layout(done)| + 2 * (|m| + 1) <= |s|
    ensures var p := |Layout(done)|;
            Laid(Written(Written(s, p, m), p + |m| + 1, m), done + [m])
  {
    hide Written, StringAt, Layout, NulFree;
    WrittenTwice(s, |Layout(done)|, m);
    LayoutOne(done, m);
    NulFreeAppend(done, m);
    assert (done + [m])[|done + [m]| - 1] == m;
  }

  /** One turn of the loop: extract, print twice, shift the rest to the front. */
  method ReceiveOne(buf: array<char>, respDst: array<char>, message_length: nat, ghost text: string,
                    ghost done: seq<string>)
    returns (r: NetRead, length: nat)
    requires buf != respDst && buf.Length == respDst.Length == BUFSIZE
    requires StringAt(buf[..], 0, text) && text != "" && Manageable(text, message_length)
    requires Receiving(respDst[..], message_length, done)
    modifies buf, respDst
    ensures Parse(text).Reject? ==> r == Exit(Parse(text).complaint)
    ensures Parse(text).Accept? ==>
              var m := Parse(text).message;
              && r.Next? && StringAt(buf[..], 0, Parse(text).rest)
              && length == message_length + |m| + 1
              && Receiving(respDst[..], length, done + [m])
  {
    hide Parse, Laid, Defined, Layout;
    length := message_length;
    ghost var s := respDst[..];
    r := ReadNet(buf, 0, message_length, text);
    if r.Exit? {
      return;
    }
    ghost var m, rest := Parse(text).message, Parse(text).rest;
    assert NUL !in m;
    CopyString(buf, respDst, message_length, m);
    var n := StrLen(buf, 0, m);
    length := message_length + n + 1;
    CopyString(buf, respDst, length, m);
    LaidStep(s, done, m);
    LayoutOne(done, m);
    StrCpyDown(buf, r.pos, rest);
    WrittenIsString(buf[..], 0, rest);
  }

  /**
   Receives a batch. The result is the number of messages; message `i` lies NUL-terminated
   at its offset, and the last one once more behind them.
   */
  method RecvMessage(input: string, respDst: array<char>) returns (r: Received)
    requires respDst.Length == BUFSIZE
    requires |input| < BUFSIZE && NUL !in input && Manageable(input, 0)
    modifies respDst
    ensures match Decode(input, 0)
            case Messages(ms) => r == Count(|ms|) && Laid(respDst[..], ms)
            case Rejected(complaint) => r == Exited(complaint)
  {
    hide Parse, Laid, Defined, Layout;
    MemSet(respDst);
    var buf := new char[BUFSIZE](_ => NUL);
    PrintAt(buf, 0, input);
    WrittenIsString(seq(BUFSIZE, _ => NUL), 0, input);
    var message_length, nets := 0, 0;
    ghost var text, done := input, [];
    LaidNone(respDst[..]);
    CharAt(buf[..], 0, text, 0);
    while buf[0] != NUL
      invariant StringAt(buf[..], 0, text) && Manageable(text, message_length)
      invariant Prepend(done, Decode(text, message_length)) == Decode(input, 0)
      invariant Receiving(respDst[..], message_length, done) && nets == |done|
      decreases |text|
    {
      CharAt(buf[..], 0, text, 0);
      var one;
      one, message_length := ReceiveOne(buf, respDst, message_length, text, done);
      if one.Exit? {
        return Exited(one.complaint);
      }
      ghost var m, rest := Parse(text).message, Parse(text).rest;
      PrependTwice(done, m, Decode(rest, message_length));
      text, done := rest, done + [m];
      nets := nets + 1;
    }
    CharAt(buf[..], 0, text, 0);
    assert text == "" && done + [] == done;
    r := Count(nets);
  }

  lemma LaidNone(s: seq<char>)
    requires |s| > 0 && s[0] == NUL
    ensures Laid(s, []) && Layout([]) == ""
  {
  }
}

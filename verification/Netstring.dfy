/** Netstrings (D. J. Bernstein, "Netstrings", section 2), printed and parsed in fixed buffers. */
module Netstring {
  import opened CStrings
  import opened Decimal

  const BUFSIZE := 4096

  /** The netstring of a message. */
  function Encode(m: string): string {
    Print(|m|) + (":" + (m + ","))
  }

  /** Whether the netstring and a terminator fit a buffer. */
  predicate Fits(m: string) {
    |Encode(m)| < BUFSIZE
  }

  // ---- Printing -----------------------------------------------------------------------------

  /**
   The size test of the printer. C leaves open whether the digits of the length or of the
   buffer size are counted; the outcome is the same, because every length with which the
   two counts differ is far from the limit.
   */
  lemma GuardOrderIrrelevant(len: nat)
    ensures len < BUFSIZE - |Print(len)| <==> len < BUFSIZE - 4
    ensures |Print(BUFSIZE)| == 4
  {
    PrintLength(len);
    PrintLength(BUFSIZE);
  }

  /** The messages that fit are those below 4090 characters. */
  lemma FitsIff(m: string)
    ensures |Encode(m)| == |Print(|m|)| + 1 + |m| + 1
    ensures Fits(m) <==> |m| < 4090
  {
    PrintLength(|m|);
  }

  /** The test lets messages of exactly two lengths through that do not fit. */
  lemma TestPassesUnfitIff(m: string)
    ensures |m| < 4096 - |Print(|m|)| && !Fits(m) <==> |m| == 4090 || |m| == 4091
  {
    hide Print, Encode;
    GuardOrderIrrelevant(|m|);
    FitsIff(m);
  }

  /**
   The printer. The buffer holds exactly the netstring, padded with NUL, and the result is
   one less than its length; a message that is too long is replaced by "0:".
   */
  method WriteNet(dest: array<char>, src: string, digitsOfLength: bool) returns (n: nat)
    requires dest.Length == BUFSIZE && NUL !in src
    requires Fits(src) || |src| >= BUFSIZE - 4
    modifies dest
    ensures n + 1 == |Encode(src)|
    ensures Fits(src) ==> dest[..] == Encode(src) + seq(BUFSIZE - |Encode(src)|, _ => NUL)
    ensures !Fits(src) ==> StringAt(dest[..], 0, "0:")
  {
    hide Written, Print, StringAt;
    MemSet(dest);
    ghost var zeros := dest[..];
    var len := |src|;
    GuardOrderIrrelevant(len);
    FitsIff(src);
    var digits := CountDigits(if digitsOfLength then len else BUFSIZE);
    if len < BUFSIZE - digits {
      PrintNet(dest, src, zeros);
    } else {
      PrintAt(dest, 0, "0:");
      WrittenIsString(zeros, 0, "0:");
    }
    var d := CountDigits(len);
    n := len + d + 1;
  }

  /** The three library calls that lay the netstring down. */
  method PrintNet(dest: array<char>, src: string, ghost zeros: seq<char>)
    requires dest.Length == BUFSIZE && Fits(src)
    requires dest[..] == zeros && forall i :: 0 <= i < |zeros| ==> zeros[i] == NUL
    modifies dest
    ensures dest[..] == Encode(src) + seq(BUFSIZE - |Encode(src)|, _ => NUL)
  {
    hide Written, Print;
    var head := Print(|src|) + ":";
    EncodeByParts(src);
    PrintAt(dest, 0, head);
    PrintAt(dest, |head|, src);
    PrintAt(dest, |head| + |src|, ",");
    PrintedInParts(zeros, head, src, dest[..]);
  }

  lemma EncodeByParts(m: string)
    ensures Encode(m) == (Print(|m|) + ":") + m + ","
  {
    hide Print;
    FromTheLeft(Print(|m|), ":", m, ",");
  }

  lemma FromTheLeft(a: string, b: string, c: string, d: string)
    ensures a + (b + (c + d)) == (a + b) + c + d
  {
  }

  lemma PrintedInParts(zeros: seq<char>, head: string, src: string, result: seq<char>)
    requires forall i :: 0 <= i < |zeros| ==> zeros[i] == NUL
    requires |head| + |src| + 1 < |zeros|
    requires result == Written(Written(Written(zeros, 0, head), |head|, src), |head| + |src|, ",")
    ensures result == head + src + "," + seq(|zeros| - (|head| + |src| + 1), _ => NUL)
  {
    var expected := head + src + "," + seq(|zeros| - (|head| + |src| + 1), _ => NUL);
    assert |result| == |expected|;
    forall i | 0 <= i < |result|
      ensures result[i] == expected[i]
    {
    }
  }

  /** What is written to the socket is exactly the netstring; no terminator follows it. */
  method SendMessage(m: string, buf: array<char>, digitsOfLength: bool) returns (written: string)
    requires buf.Length == BUFSIZE && NUL !in m && Fits(m)
    modifies buf
    ensures written == Encode(m)
  {
    var n := WriteNet(buf, m, digitsOfLength);
    written := buf[..n + 1];
  }

  /** A netstring, character by character: the length in decimal, a colon, the message and a comma. */
  lemma EncodeCharacters(m: string)
    ensures var t := Encode(m);
            var k := |t| - |m| - 2;
            && 0 < k && ReadDecimal(t[..k]) == |m| && (forall i :: 0 <= i < k ==> 48 <= t[i] as int <= 57)
            && (t[0] == '0' ==> |m| == 0)
            && t[k] == ':' && t[k + 1..k + 1 + |m|] == m && t[k + 1 + |m|] == ','
  {
    hide Print, ReadDecimal;
    PrintReads(|m|);
    var head := Print(|m|);
    assert Encode(m)[..|head|] == head;
  }

  // ---- Parsing one netstring ----------------------------------------------------------------

  /** What the parser complains about. */
  datatype Complaint = BadFormat | LeadingZero {
    function Text(): string {
      match this
      case BadFormat => "String in netstring format"
      case LeadingZero => "no leading 0"
    }
  }

  datatype Step = Reject(complaint: Complaint) | Accept(message: string, rest: string)

  /** An error report is silenced by a text that is an error report itself, or the expected text. */
  predicate Silences(text: string) {
    text == "" || text[0] == 'E' || text == BadFormat.Text()
  }

  lemma DigitDoesNotSilence(text: string)
    requires text != "" && IsDigit(text[0])
    ensures !Silences(text)
  {
    assert BadFormat.Text()[0] == 'S';
  }

  predicate Malformed(text: string) {
    Index(text, ':') == |text| || Index(text, ',') < Index(text, ':')
  }

  /** The length a text claims in front of its first colon. */
  function Claimed(text: string): int {
    Atol(text[..Index(text, ':')])
  }

  /**
   The texts whose treatment the code defines: the error report is not silenced by the
   text itself, and a claimed payload with its terminator is there, so nothing is refilled.
   */
  predicate Defined(text: string) {
    && text != "" && !Silences(text)
    && (!Malformed(text) && text[0] != '0' ==>
          0 <= Claimed(text) && Index(text, ':') + Claimed(text) + 2 <= |text|)
  }

  function Parse(text: string): (step: Step)
    requires Defined(text)
    ensures step.Accept? ==> |step.rest| < |text|
  {
    if Malformed(text) then Reject(BadFormat)
    else if text[0] == '0' then Reject(LeadingZero)
    else if Index(text, ',') == |text| then Reject(BadFormat)
    else
      var start := Index(text, ':') + 1;
      Accept(text[start..start + Claimed(text)], text[start + Claimed(text) + 1..])
  }

  /** A colon comes before any comma. */
  predicate ColonFirst(text: string) {
    exists i :: 0 <= i < |text| && text[i] == ':' && forall j :: 0 <= j < i ==> text[j] != ','
  }

  lemma MalformedIff(text: string)
    ensures Malformed(text) <==> !ColonFirst(text)
  {
    if ColonFirst(text) {
      var i :| 0 <= i < |text| && text[i] == ':' && forall j :: 0 <= j < i ==> text[j] != ',';
      IndexAtMost(text, ':', i);
    }
  }

  /** Which complaint a text gets: about its zero if a colon comes first, about its format otherwise. */
  lemma ComplaintIff(text: string)
    requires Defined(text)
    ensures Parse(text) == Reject(LeadingZero) <==> ColonFirst(text) && text[0] == '0'
    ensures Parse(text) == Reject(BadFormat) <==> !ColonFirst(text) || (text[0] != '0' && ',' !in text)
  {
    hide Malformed, Silences, ColonFirst;
    MalformedIff(text);
    if ',' in text {
      var i :| 0 <= i < |text| && text[i] == ',';
      IndexAtMost(text, ',', i);
    }
  }

  // ---- The parser on texts that start with a number -----------------------------------------

  lemma LeadingUnique(t: string, k: nat)
    requires k <= |t| && forall i :: 0 <= i < k ==> IsDigit(t[i])
    requires k < |t| ==> !IsDigit(t[k])
    ensures LeadingDigits(t) == k
  {
  }

  lemma IndexAtMost(t: string, c: char, i: nat)
    requires i < |t| && t[i] == c
    ensures Index(t, c) <= i
  {
  }

  /** Digits, a colon, and more: where the parser finds the colon and what stands before it. */
  lemma NumberInFront(head: string, tail: string)
    requires head != "" && forall c :: c in head ==> IsDigit(c)
    ensures var text := head + (":" + tail);
            && Index(text, ':') == LeadingDigits(text) == |head|
            && Index(text, ',') > |head|
            && text[..|head|] == head && text[|head| + 1..] == tail
            && IsDigit(text[0]) && text[0] == head[0]
  {
    var text := head + (":" + tail);
    forall i | 0 <= i < |head|
      ensures IsDigit(text[i])
    {
      assert text[i] == head[i] && head[i] in head;
    }
    assert text[|head|] == ':';
    IndexUnique(text, ':', |head|);
    LeadingUnique(text, |head|);
  }

  /** A payload, a character behind it, and more. */
  lemma PayloadInFront(m: string, c: char, rest: string)
    ensures var tail := m + ([c] + rest);
            tail[..|m|] == m && tail[|m|] == c && tail[|m| + 1..] == rest
  {
  }

  /** The reading of a text that is taken apart at its colon. */
  lemma ParseParts(text: string, head: string, tail: string)
    requires head != "" && (forall c :: c in head ==> IsDigit(c)) && head[0] != '0'
    requires text == head + (":" + tail)
    requires Value(head) < |tail|
    ensures Defined(text)
    ensures ',' in tail ==> Parse(text) == Accept(tail[..Value(head)], tail[Value(head) + 1..])
  {
    hide Atol, Value, Print, LeadingDigits, Index, Parse, Silences;
    NumberInFront(head, tail);
    AtolOfDigits(head);
    assert Claimed(text) == Value(head);
    DigitDoesNotSilence(text);
    var start, v := |head| + 1, Value(head);
    SliceShift(text, start, tail, v);
    if ',' in tail {
      CommaFollows(text, start, tail);
      ParseAccepts(text, start, v);
      assert Parse(text) == Accept(tail[..v], tail[v + 1..]);
    }
  }

  lemma ParseAccepts(text: string, start: nat, v: nat)
    requires Defined(text) && text[0] != '0' && Claimed(text) == v
    requires start == Index(text, ':') + 1 <= Index(text, ',') < |text|
    ensures start + v + 1 <= |text|
    ensures Parse(text) == Accept(text[start..start + v], text[start + v + 1..])
  {
    hide Claimed, Index, Silences;
  }

  lemma CommaFollows(text: string, k: nat, tail: string)
    requires k <= |text| && text[k..] == tail && ',' in tail
    ensures Index(text, ',') < |text|
  {
    var i :| 0 <= i < |tail| && tail[i] == ',';
    assert text[k + i] == ',';
    IndexAtMost(text, ',', k + i);
  }

  lemma SliceShift(text: string, k: nat, tail: string, n: nat)
    requires k <= |text| && text[k..] == tail && n < |tail|
    ensures text[k..k + n] == tail[..n] && text[k + n + 1..] == tail[n + 1..]
  {
  }

  /** Parsing what was printed gives the message back, whatever follows it. */
  lemma ParseOfEncode(m: string, rest: string)
    requires m != ""
    ensures Defined(Encode(m) + rest)
    ensures Parse(Encode(m) + rest) == Accept(m, rest)
  {
    var head, tail := Print(|m|), m + ("," + rest);
    PrintShape(|m|);
    ValueOfPrint(|m|);
    PayloadInFront(m, ',', rest);
    assert ',' in tail;
    EncodeThen(m, rest);
    ParseParts(Encode(m) + rest, head, tail);
  }

  lemma EncodeThen(m: string, rest: string)
    ensures Encode(m) + rest == Print(|m|) + (":" + (m + ("," + rest)))
  {
    hide Print;
    Regroup(Print(|m|), ":", m, ",", rest);
  }

  lemma Regroup(a: string, b: string, c: string, d: string, e: string)
    ensures (a + (b + (c + d))) + e == a + (b + (c + (d + e)))
  {
  }

  /**
   The parser looks neither at the digits nor at the terminator themselves. What it
   accepts is a netstring exactly when the length is plain digits and a comma ends it.
   */
  lemma AcceptedIsNetstringIff(text: string)
    requires Defined(text) && Parse(text).Accept?
    ensures var m, rest := Parse(text).message, Parse(text).rest;
            var colon := Index(text, ':');
            text == Encode(m) + rest
            <==> colon > 0 && LeadingDigits(text) == colon && text[colon + 1 + |m|] == ','
  {
    hide Parse, Defined, Index, LeadingDigits, Encode;
    ParseShape(text);
    if text == Encode(Parse(text).message) + Parse(text).rest {
      NetstringIsPlain(text, Parse(text).message, Parse(text).rest);
    }
    if Index(text, ':') > 0 && LeadingDigits(text) == Index(text, ':')
       && text[Index(text, ':') + 1 + |Parse(text).message|] == ',' {
      PlainNumberIsNetstring(text);
    }
  }

  /** A text that is accepted and is no netstring: a sign in the length, and no comma behind the payload. */
  lemma NoNetstringAccepted()
    ensures var text := "+1:a;,";
            && Defined(text) && Parse(text) == Accept("a", ",")
            && text != Encode("a") + ","
  {
    hide Atol, Print;
    var text := "+1:a;,";
    IndexUnique(text, ':', 2);
    IndexUnique(text, ',', 5);
    assert text[..2] == "+1";
    SignedOne();
    assert Encode("a")[0] == '1';
  }

  lemma SignedOne()
    ensures Print(1) == "1" && Atol("+1") == 1
  {
    AtolOfPrint(1);
    assert Print(1) == "1" && Atol("1") == Unsigned("1") && "+1"[1..] == "1";
  }

  /** A netstring starts with digits up to its colon, and a comma ends its payload. */
  lemma NetstringIsPlain(text: string, m: string, rest: string)
    requires text == Encode(m) + rest
    ensures var colon := Index(text, ':');
            && 0 < colon == LeadingDigits(text) && colon + 1 + |m| < |text|
            && text[colon + 1 + |m|] == ','
  {
    hide Print, Index, LeadingDigits;
    var head, tail := Print(|m|), m + ("," + rest);
    EncodeThen(m, rest);
    PrintShape(|m|);
    NumberInFront(head, tail);
    PayloadInFront(m, ',', rest);
    assert text[|head| + 1 + |m|] == text[|head| + 1..][|m|];
  }

  /** What acceptance says about the text. */
  lemma ParseShape(text: string)
    requires Defined(text) && Parse(text).Accept?
    ensures var m, rest, colon := Parse(text).message, Parse(text).rest, Index(text, ':');
            && text[0] != '0' && Claimed(text) == |m|
            && colon + 1 + |m| < |text| && text[colon] == ':'
            && m == text[colon + 1..colon + 1 + |m|] && rest == text[colon + 1 + |m| + 1..]
  {
    hide Claimed, Silences;
  }

  lemma PlainNumberIsNetstring(text: string)
    requires Defined(text) && Parse(text).Accept?
    requires 0 < Index(text, ':') == LeadingDigits(text)
    requires text[Index(text, ':') + 1 + |Parse(text).message|] == ','
    ensures text == Encode(Parse(text).message) + Parse(text).rest
  {
    hide Atol, Value, Print, Index, LeadingDigits, Silences, Parse, Defined, Encode;
    var m, rest, colon := Parse(text).message, Parse(text).rest, Index(text, ':');
    ParseShape(text);
    DigitsOnly(text, colon);
    AtolOfDigits(text[..colon]);
    PrintOfValue(text[..colon]);
    EncodeThen(m, rest);
    Reassemble(text, colon, colon + 1 + |m|, text[..colon], m, rest);
  }

  lemma Reassemble(text: string, i: nat, j: nat, head: string, m: string, rest: string)
    requires i < j < |text| && text[i] == ':' && text[j] == ','
    requires text[..i] == head && text[i + 1..j] == m && text[j + 1..] == rest
    ensures text == head + (":" + (m + ("," + rest)))
  {
    assert text == text[..i] + ([text[i]] + (text[i + 1..j] + ([text[j]] + text[j + 1..])));
  }

  lemma AtolOfDigits(t: string)
    requires t != "" && forall c :: c in t ==> IsDigit(c)
    ensures Atol(t) == Value(t)
  {
    assert t[0] in t;
    AllLeading(t);
    assert t[..|t|] == t;
  }

  /** The netstring of a message without NUL can travel as a C string. */
  lemma EncodeHasNoNul(m: string)
    requires NUL !in m
    ensures NUL !in Encode(m)
  {
    PrintShape(|m|);
    assert !IsDigit(NUL);
  }
}

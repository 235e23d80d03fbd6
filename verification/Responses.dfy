/** How the traceroute judges a packet it has received. */
module Responses {
  import opened Bytes
  import opened Checksum
  import opened ErrorDetection
  import opened HeaderWalk

  const VERSION_IPV6: byte := 0x60
  const ECHO_REPLY: byte := 129
  const TIME_EXCEEDED: byte := 3
  const DEST_UNREACHABLE: byte := 1
  const IDENTIFIER: byte := 0xAB

  /**
   The answer an attempt waits for, with the address it came from, or nothing of interest;
   or none at all, because the walk over the headers never ends.
   */
  datatype Answer = Ignored | Reply(source: seq<byte>) | NoAnswer

  // ---- The specification --------------------------------------------------------------------

  predicate Within(b: seq<byte>, from: int, count: nat) {
    0 <= from && from + count <= |b|
  }

  function Cleared(b: seq<byte>, pos: int): seq<byte>
    requires Within(b, pos + CHECKSUM_OFFSET, 2)
  {
    b[pos + CHECKSUM_OFFSET := 0][pos + CHECKSUM_OFFSET + 1 := 0]
  }

  /** Whether the recomputed checksum of the message at `pos` is the one it carries. */
  function ChecksumMatches(b: seq<byte>, pos: int): (r: Result<bool>)
    ensures r.Ok? ==> Within(b, pos, 4) && |b| >= IPV6_HEADER
  {
    if !Within(b, pos + CHECKSUM_OFFSET, 2) then Thrown(IndexOutOfBounds)
    else if !ArgumentsAccepted(|b|, 0, |b|, pos, |b| - IPV6_HEADER) then Thrown(IllegalArgument)
    else
      var z := Cleared(b, pos);
      Ok(BigEndian(RfcChecksum(z[8..24], z[24..40], z[pos..pos + |b| - IPV6_HEADER]))
         == b[pos + CHECKSUM_OFFSET..pos + CHECKSUM_OFFSET + 2])
  }

  /** Whether the Echo Reply at `pos` answers our request. */
  function IsOurReply(b: seq<byte>, pos: int): Result<bool>
    requires Within(b, pos, 4)
  {
    if b[pos + 1] != 0 then Ok(false)
    else if pos + 4 >= |b| then Thrown(IndexOutOfBounds)
    else if b[pos + 4] != IDENTIFIER then Ok(false)
    else if pos + 5 >= |b| then Thrown(IndexOutOfBounds)
    else Ok(b[pos + 5] == 0)
  }

  /** The judgement on the ICMPv6 message at `pos`. */
  function JudgeMessage(b: seq<byte>, pos: int): Result<Answer> {
    var matches :- ChecksumMatches(b, pos);
    if !matches || b[pos] != ECHO_REPLY then Ok(Ignored)
    else
      var ours :- IsOurReply(b, pos);
      Ok(if ours then Reply(Cleared(b, pos)[8..24]) else Ignored)
  }

  /** The judgement on a packet. */
  function Judge(b: seq<byte>, myIp: seq<byte>): Result<Answer> {
    if b == [] then Thrown(IndexOutOfBounds)
    else if b[0] != VERSION_IPV6 then Ok(Ignored)
    else if |b| < IPV6_HEADER then Thrown(IndexOutOfBounds)
    else if b[24..40] != myIp then Ok(Ignored)
    else
      match EndOfWalk(b)
      case None => Ok(NoAnswer)
      case Some(OutOfBounds) => Thrown(IndexOutOfBounds)
      case Some(At(pos, skip)) => if b[pos] == NEXT_HEADER_ICMPV6 then JudgeMessage(b, pos + skip) else Ok(Ignored)
  }

  // ---- What the judgement means -------------------------------------------------------------

  /** A packet to us, of a size the checksum is computed for. */
  predicate ToUs(b: seq<byte>, myIp: seq<byte>) {
    IPV6_HEADER + 2 <= |b| <= IPV6_HEADER + 2048 && b[0] == VERSION_IPV6 && b[24..40] == myIp
  }

  /** The octets at `pos` read as an Echo Reply with our identifier. */
  predicate EchoReplyAt(b: seq<byte>, pos: int) {
    && Within(b, pos, 6)
    && b[pos] == ECHO_REPLY && b[pos + 1] == 0 && b[pos + 4] == IDENTIFIER && b[pos + 5] == 0
  }

  /** An Echo Reply to us, directly behind the IPv6 header, that the receiver's rule accepts. */
  predicate GenuineReply(b: seq<byte>, myIp: seq<byte>) {
    && ToUs(b, myIp) && b[FIRST_NEXT_HEADER] == NEXT_HEADER_ICMPV6 && EchoReplyAt(b, IPV6_HEADER)
    && SumsToAllOnes(b[8..24], b[24..40], b[40..]) && Field(b[40..]) != 0xFFFF
  }

  /**
   The one other way to end an attempt: length octets that read as negative lead the walk
   backwards, so that what passes for the message begins inside the IPv6 header.
   */
  predicate MisreadReply(b: seq<byte>, myIp: seq<byte>) {
    && ToUs(b, myIp) && IsExtension(b[FIRST_NEXT_HEADER])
    && EndOfWalk(b).Some? && EndOfWalk(b).value.At?
    && var end := EndOfWalk(b).value;
    var pos := end.pos + end.skip;
    && b[end.pos] == NEXT_HEADER_ICMPV6 && pos < IPV6_HEADER
    && EchoReplyAt(b, pos) && ChecksumMatches(b, pos) == Ok(true)
  }

  lemma BigEndianInjective(v: word, w: word)
    ensures BigEndian(v) == BigEndian(w) <==> v == w
  {
  }

  /** Directly behind the IPv6 header the check is the rule of RFC 1071, except for the field 0xFFFF. */
  lemma ChecksumMatchesIff(b: seq<byte>)
    requires IPV6_HEADER + 4 <= |b| <= IPV6_HEADER + 2048
    ensures ChecksumMatches(b, IPV6_HEADER)
            == Ok(SumsToAllOnes(b[8..24], b[24..40], b[40..]) && Field(b[40..]) != 0xFFFF)
  {
    hide RfcChecksum, SumsToAllOnes;
    var p, z := b[40..], Cleared(b, IPV6_HEADER);
    assert z[8..24] == b[8..24] && z[24..40] == b[24..40];
    assert z[40..40 + |b| - IPV6_HEADER] == ClearedField(p);
    assert b[42..44] == BigEndian(Field(p)) by { WordRoundTrip(p[2], p[3]); }
    BigEndianInjective(RfcChecksum(b[8..24], b[24..40], ClearedField(p)), Field(p));
    RecomputeAcceptsIff(b[8..24], b[24..40], p);
  }

  lemma WordRoundTrip(high: byte, low: byte)
    ensures BigEndian(Word(high, low)) == [high, low]
  {
  }

  /** Behind any extension header the length passed to the checksum is too long, and it throws. */
  lemma ChecksumThrowsBehindExtensions(b: seq<byte>, pos: int)
    requires pos > IPV6_HEADER
    ensures ChecksumMatches(b, pos).Thrown?
  {
  }

  lemma ChecksumOfOddSizes(b: seq<byte>)
    requires |b| < IPV6_HEADER + 4 || |b| > IPV6_HEADER + 2048
    ensures ChecksumMatches(b, IPV6_HEADER).Thrown?
  {
  }

  /** When a message at `pos` is answered, and where it then begins. */
  lemma MessageAnswered(b: seq<byte>, pos: int)
    ensures (JudgeMessage(b, pos).Ok? && JudgeMessage(b, pos).value.Reply?)
            <==> EchoReplyAt(b, pos) && ChecksumMatches(b, pos) == Ok(true)
    ensures JudgeMessage(b, pos).Ok? ==> JudgeMessage(b, pos).value != NoAnswer
    ensures ChecksumMatches(b, pos).Ok? ==> 0 <= pos <= IPV6_HEADER && IPV6_HEADER <= |b| <= IPV6_HEADER + 2048
  {
  }

  /** Without extension headers the walk ends at once; with one, octet 40 is the type of a header. */
  lemma FirstHeader(b: seq<byte>)
    requires |b| > FIRST_NEXT_HEADER
    ensures !IsExtension(b[FIRST_NEXT_HEADER]) ==>
              EndOfWalk(b) == Some(At(FIRST_NEXT_HEADER, IPV6_HEADER - FIRST_NEXT_HEADER))
    ensures IsExtension(b[FIRST_NEXT_HEADER]) && EndOfWalk(b).Some? && EndOfWalk(b).value.At? ==>
              |b| > IPV6_HEADER + 1 && (EndOfWalk(b).value.pos == IPV6_HEADER || IsExtension(b[IPV6_HEADER]))
  {
    if IsExtension(b[FIRST_NEXT_HEADER]) && Inside(b, IPV6_HEADER) {
      assert EndOfWalk(b) == WalkFrom(b, IPV6_HEADER, SkipAt(b, IPV6_HEADER), |b|);
    }
  }

  /** A packet without extension headers is answered exactly if it is a genuine reply. */
  lemma AnswersDirectly(b: seq<byte>, myIp: seq<byte>)
    requires |b| >= IPV6_HEADER && !IsExtension(b[FIRST_NEXT_HEADER])
    ensures (Judge(b, myIp).Ok? && Judge(b, myIp).value.Reply?) <==> GenuineReply(b, myIp)
    ensures GenuineReply(b, myIp) ==> Judge(b, myIp) == Ok(Reply(b[8..24]))
  {
    hide ChecksumMatches, SumsToAllOnes, Field, EndOfWalk, JudgeMessage;
    FirstHeader(b);
    MessageAnswered(b, IPV6_HEADER);
    if |b| < IPV6_HEADER + 4 || |b| > IPV6_HEADER + 2048 {
      ChecksumOfOddSizes(b);
    } else {
      ChecksumMatchesIff(b);
      AnswerIsSource(b);
    }
  }

  lemma AnswerIsSource(b: seq<byte>)
    requires |b| >= IPV6_HEADER + 4
    ensures var r := JudgeMessage(b, IPV6_HEADER);
            r.Ok? && r.value.Reply? ==> r == Ok(Reply(b[8..24]))
  {
    hide ChecksumMatches;
    assert Cleared(b, IPV6_HEADER)[8..24] == b[8..24];
  }

  /**
   The packets without extension headers that are answered, octet by octet: an Echo Reply
   to us with our identifier, of at most 2048 octets, whose sum with the addresses, its
   length and 58 is a multiple of 65535, and whose checksum field is not 0xFFFF.
   */
  lemma AnswersOctets(b: seq<byte>, myIp: seq<byte>, source: seq<byte>)
    requires |b| > 6 ==> b[6] != 0 && b[6] != 43 && b[6] != 60
    ensures Judge(b, myIp) == Ok(Reply(source))
            <==> && 46 <= |b| <= 2088
                 && b[0] == 0x60 && b[6] == 58 && b[24..40] == myIp && source == b[8..24]
                 && b[40] == 129 && b[41] == 0 && b[44] == 0xAB && b[45] == 0
                 && (Weighted(b[8..24]) + Weighted(b[24..40]) + (|b| - 40) + 58 + Weighted(b[40..])) % 65535 == 0
                 && (b[42] != 0xFF || b[43] != 0xFF)
  {
    hide Judge, SumsToAllOnes, Weighted;
    if |b| >= 40 {
      AnswersDirectly(b, myIp);
      if |b| <= 2088 {
        SumsToAllOnesIff(b[8..24], b[24..40], b[40..]);
      }
    } else {
      ShortIsIgnored(b, myIp);
    }
  }

  lemma ShortIsIgnored(b: seq<byte>, myIp: seq<byte>)
    requires |b| < 40
    ensures Judge(b, myIp).Ok? ==> Judge(b, myIp) == Ok(Ignored)
  {
  }

  /** A packet with extension headers is answered exactly if it is misread. */
  lemma AnswersBackwards(b: seq<byte>, myIp: seq<byte>)
    requires |b| >= IPV6_HEADER && IsExtension(b[FIRST_NEXT_HEADER])
    ensures (Judge(b, myIp).Ok? && Judge(b, myIp).value.Reply?) <==> MisreadReply(b, myIp)
  {
    hide ChecksumMatches, EndOfWalk, JudgeMessage;
    FirstHeader(b);
    if EndOfWalk(b).Some? && EndOfWalk(b).value.At? {
      MessageAnswered(b, EndOfWalk(b).value.pos + EndOfWalk(b).value.skip);
    }
  }

  /**
   Which packets end an attempt: exactly the genuine replies and those misread; and none
   is misread as long as no length octet on the walk reads as negative.
   */
  lemma AnswersIff(b: seq<byte>, myIp: seq<byte>)
    ensures (Judge(b, myIp).Ok? && Judge(b, myIp).value.Reply?) <==> GenuineReply(b, myIp) || MisreadReply(b, myIp)
    ensures GenuineReply(b, myIp) ==> Judge(b, myIp) == Ok(Reply(b[8..24]))
    ensures MovesForward(b) ==> !MisreadReply(b, myIp)
  {
    hide ChecksumMatches, SumsToAllOnes, Field, EndOfWalk, JudgeMessage, MovesForward;
    if |b| >= IPV6_HEADER {
      if IsExtension(b[FIRST_NEXT_HEADER]) {
        AnswersBackwards(b, myIp);
        if MovesForward(b) {
          MovesForwardHalts(b);
        }
      } else {
        AnswersDirectly(b, myIp);
      }
    }
  }

  /** Where the message of a misread packet begins: at one of four places inside the IPv6 header. */
  lemma MisreadAt(b: seq<byte>, myIp: seq<byte>)
    requires MisreadReply(b, myIp)
    ensures var pos := EndOfWalk(b).value.pos + EndOfWalk(b).value.skip;
            pos == 8 || pos == 16 || pos == 24 || pos == 32
  {
    hide WalkFrom, ChecksumMatches, IsExtension;
    AlignedEnd(b, FIRST_NEXT_HEADER, IPV6_HEADER - FIRST_NEXT_HEADER, |b| + 1);
  }

  /** The messages whose examination fails: no room for the checksum, or a reply that is cut short. */
  predicate MessageThrows(b: seq<byte>, pos: int) {
    || !(0 <= pos <= IPV6_HEADER && pos + 4 <= |b| && IPV6_HEADER <= |b| <= IPV6_HEADER + 2048)
    || (ChecksumMatches(b, pos) == Ok(true) && b[pos] == ECHO_REPLY && b[pos + 1] == 0
        && (pos + 4 == |b| || (pos + 5 == |b| && b[pos + 4] == IDENTIFIER)))
  }

  /** The exception is about an index if the field or what follows is missing, and about the arguments otherwise. */
  lemma MessageThrowsIff(b: seq<byte>, pos: int)
    ensures JudgeMessage(b, pos).Thrown? <==> MessageThrows(b, pos)
    ensures JudgeMessage(b, pos) == Thrown(IllegalArgument)
            <==> 0 <= pos + 2 && pos + 4 <= |b| && !(0 <= pos <= 40 <= |b| <= 2088)
    ensures JudgeMessage(b, pos) != Thrown(NullPointer)
  {
  }

  /** Which packets end the program with an exception. */
  predicate ThrowingPacket(b: seq<byte>, myIp: seq<byte>) {
    || b == []
    || (b[0] == VERSION_IPV6
        && (|b| < IPV6_HEADER
            || (b[24..40] == myIp && EndOfWalk(b).Some?
                && (EndOfWalk(b).value.OutOfBounds?
                    || (b[EndOfWalk(b).value.pos] == NEXT_HEADER_ICMPV6
                        && MessageThrows(b, EndOfWalk(b).value.pos + EndOfWalk(b).value.skip))))))
  }

  lemma ThrowsIff(b: seq<byte>, myIp: seq<byte>)
    ensures Judge(b, myIp).Thrown? <==> ThrowingPacket(b, myIp)
  {
    hide JudgeMessage, EndOfWalk, MessageThrows;
    if EndOfWalk(b).Some? && EndOfWalk(b).value.At? {
      MessageThrowsIff(b, EndOfWalk(b).value.pos + EndOfWalk(b).value.skip);
    }
  }

  /** Any packet to us that leads the walk forward over an extension header to an ICMPv6 message throws. */
  lemma ForwardExtensionsThrow(b: seq<byte>, myIp: seq<byte>)
    requires |b| >= IPV6_HEADER && b[0] == VERSION_IPV6 && b[24..40] == myIp && MovesForward(b)
    requires IsExtension(b[FIRST_NEXT_HEADER])
    ensures Judge(b, myIp).Thrown? || Judge(b, myIp) == Ok(Ignored)
    ensures EndOfWalk(b).Some? && EndOfWalk(b).value.At? && b[EndOfWalk(b).value.pos] == NEXT_HEADER_ICMPV6 ==>
              Judge(b, myIp).Thrown?
  {
    hide ChecksumMatches, EndOfWalk;
    MovesForwardHalts(b);
    if EndOfWalk(b).value.At? {
      ChecksumThrowsBehindExtensions(b, EndOfWalk(b).value.pos + EndOfWalk(b).value.skip);
    }
  }

  /** A hop-by-hop header whose length octet reads as -2 leads back to the octets of the address. */
  function BackwardPacket(src: seq<byte>): seq<byte>
    requires |src| == 16
  {
    var blank := BackwardBlank(src);
    var cksum := BigEndian(RfcChecksum(blank[8..24], blank[24..40], blank[32..34]));
    blank[34 := cksum[0]][35 := cksum[1]]
  }

  function BackwardBlank(src: seq<byte>): (b: seq<byte>)
    requires |src| == 16
    ensures |b| == 42
  {
    [VERSION_IPV6, 0, 0, 0, 0, 2, 0, 64] + src + [0, 0, 0, 0, 0, 0, 0, 0]
    + [ECHO_REPLY, 0, 0, 0, IDENTIFIER, 0, 0, 0] + [NEXT_HEADER_ICMPV6, 0xFE]
  }

  lemma BackwardOctets(src: seq<byte>)
    requires |src| == 16
    ensures var b, blank := BackwardPacket(src), BackwardBlank(src);
            && |b| == 42 && Cleared(b, 32) == blank
            && b[0] == VERSION_IPV6 && b[6] == 0 && b[40] == NEXT_HEADER_ICMPV6 && b[41] == 0xFE
            && b[32] == ECHO_REPLY && b[33] == 0 && b[36] == IDENTIFIER && b[37] == 0
            && b[34..36] == BigEndian(RfcChecksum(blank[8..24], blank[24..40], blank[32..34]))
  {
    hide RfcChecksum;
  }

  lemma WalkBackward(b: seq<byte>)
    requires |b| == 42 && b[6] == 0 && b[40] == NEXT_HEADER_ICMPV6 && b[41] == 0xFE
    ensures EndOfWalk(b) == Some(At(40, -8))
  {
    assert WalkFrom(b, 40, -8, |b|) == Some(At(40, -8));
  }

  /** Packets that are answered though they hold no Echo Reply: the walk goes from 40 back to 32. */
  lemma BackwardPacketAnswered(src: seq<byte>)
    requires |src| == 16
    ensures var b := BackwardPacket(src);
            |b| == 42 && MisreadReply(b, b[24..40]) && !GenuineReply(b, b[24..40])
  {
    hide RfcChecksum, BackwardPacket, BackwardBlank, Cleared, EndOfWalk;
    BackwardOctets(src);
    WalkBackward(BackwardPacket(src));
  }

  /**
   The walk finds the message behind every chain of extension headers, but the checksum
   is computed over the wrong number of octets there: with at least one such header, a
   message to us always makes the program throw.
   */
  lemma ExtensionHeadersThrow(front: seq<byte>, chain: seq<Extension>, message: seq<byte>, myIp: seq<byte>)
    requires |front| == IPV6_HEADER && front[0] == VERSION_IPV6 && front[24..40] == myIp
    requires ValidChain(chain) && chain != []
    ensures var b := ChainPacket(front, chain, message);
            Judge(b, myIp).Thrown?
  {
    hide ChecksumMatches, WalkFrom, EncodeChain;
    var b := ChainPacket(front, chain, message);
    WalkFindsMessage(front, chain, message);
    assert chain[0] in chain;
    assert b[24..40] == myIp;
    ChecksumThrowsBehindExtensions(b, IPV6_HEADER + ChainLength(chain));
  }

  // ---- The code -----------------------------------------------------------------------------

  /** Saves the field, clears it in place, recomputes and compares. */
  method CheckIcmpProperties(buffer: array<byte>, pos: int) returns (r: Result<bool>)
    modifies buffer
    ensures r == ChecksumMatches(old(buffer[..]), pos)
    ensures buffer[..] == if Within(old(buffer[..]), pos + CHECKSUM_OFFSET, 2) then Cleared(old(buffer[..]), pos)
                          else old(buffer[..])
  {
    hide RfcChecksum;
    if pos + 2 < 0 || pos + 4 > buffer.Length {
      return Thrown(IndexOutOfBounds);
    }
    ghost var b := buffer[..];
    var sum := [buffer[pos + 2], buffer[pos + 3]];
    assert sum == b[pos + 2..pos + 4];
    buffer[pos + 2] := 0;
    buffer[pos + 3] := 0;
    ghost var z := Cleared(b, pos);
    assert buffer[..] == z;
    var cksum := JavaChecksum(buffer, 0, buffer, pos, buffer.Length - 40);
    if cksum.Thrown? {
      return Thrown(cksum.exception);
    }
    assert buffer[0 + 8..0 + 24] == z[8..24] && buffer[0 + 24..0 + 40] == z[24..40];
    assert buffer[pos..pos + (buffer.Length - 40)] == z[pos..pos + |b| - IPV6_HEADER];
    r := Ok(cksum.value == sum);
  }

  /** The code test of each handler; those for errors compare with alternatives and never pass. */
  method HandleIcmpTimeEx(buffer: array<byte>, pos: int) returns (done: bool)
    requires Within(buffer[..], pos, 4)
    ensures !done
  {
    var code := buffer[pos + 1];
    if code != 0 || code != 1 {
      return false;
    }
    done := true;
  }

  method HandleIcmpDestUnreach(buffer: array<byte>, pos: int) returns (done: bool)
    requires Within(buffer[..], pos, 4)
    ensures !done
  {
    var code := buffer[pos + 1];
    if code != 0 || code != 3 || code != 4 {
      return false;
    }
    done := true;
  }

  method HandleIcmpEchoRep(buffer: array<byte>, pos: int) returns (done: Result<bool>)
    requires Within(buffer[..], pos, 4)
    ensures done == IsOurReply(buffer[..], pos)
  {
    if buffer[pos + 1] != 0 {
      return Ok(false);
    }
    if pos + 4 >= buffer.Length {
      return Thrown(IndexOutOfBounds);
    }
    if buffer[pos + 4] != IDENTIFIER {
      return Ok(false);
    }
    if pos + 5 >= buffer.Length {
      return Thrown(IndexOutOfBounds);
    }
    done := Ok(buffer[pos + 5] == 0);
  }

  /** From the message's position on: checksum, then the handler of its type. */
  method CheckIcmp(buffer: array<byte>, pos: int) returns (r: Result<Answer>)
    requires buffer.Length >= IPV6_HEADER
    modifies buffer
    ensures r == JudgeMessage(old(buffer[..]), pos)
  {
    hide ChecksumMatches;
    ghost var b := buffer[..];
    var relevant := CheckIcmpProperties(buffer, pos);
    if relevant.Thrown? {
      return Thrown(relevant.exception);
    }
    if !relevant.value {
      return Ok(Ignored);
    }
    var z := Cleared(b, pos);
    assert buffer[..] == z;
    var src := buffer[8..24];
    assert buffer[pos] == z[pos] == b[pos];
    if buffer[pos] == TIME_EXCEEDED {
      var done := HandleIcmpTimeEx(buffer, pos);
      r := Ok(if done then Reply(src) else Ignored);
    } else if buffer[pos] == DEST_UNREACHABLE {
      var done := HandleIcmpDestUnreach(buffer, pos);
      r := Ok(if done then Reply(src) else Ignored);
    } else if buffer[pos] == ECHO_REPLY {
      ClearedKeepsReply(b, pos);
      var done := HandleIcmpEchoRep(buffer, pos);
      if done.Thrown? {
        return Thrown(done.exception);
      }
      r := Ok(if done.value then Reply(src) else Ignored);
    } else {
      r := Ok(Ignored);
    }
  }

  lemma ClearedKeepsReply(b: seq<byte>, pos: int)
    requires Within(b, pos, 4)
    ensures IsOurReply(Cleared(b, pos), pos) == IsOurReply(b, pos)
  {
  }

  /** The whole check of a received packet. */
  method CheckMessage(buffer: array<byte>, myIp: seq<byte>) returns (r: Result<Answer>)
    modifies buffer
    ensures r == Judge(old(buffer[..]), myIp)
  {
    hide JudgeMessage;
    if buffer.Length == 0 {
      return Thrown(IndexOutOfBounds);
    }
    if buffer[0] != VERSION_IPV6 {
      return Ok(Ignored);
    }
    if buffer.Length < 40 {
      return Thrown(IndexOutOfBounds);
    }
    var rec := buffer[24..40];
    assert rec == buffer[..][24..40];
    if myIp != rec {
      return Ok(Ignored);
    }
    var end := Walk(buffer);
    match end {
      case None => r := Ok(NoAnswer);
      case Some(OutOfBounds) => r := Thrown(IndexOutOfBounds);
      case Some(At(pos, skip)) =>
        if buffer[pos] != NEXT_HEADER_ICMPV6 {
          return Ok(Ignored);
        }
        r := CheckIcmp(buffer, pos + skip);
    }
  }
}

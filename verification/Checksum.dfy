/**
 The ICMPv6 checksum: its definition (RFC 4443, section 2.3, over the pseudo-header of
 RFC 8200, section 8.1) and the little-endian computation of libraw.
 */
module Checksum {
  import opened Bytes
  import opened OnesComplement

  const NEXT_HEADER_ICMPV6: byte := 58
  const CHECKSUM_OFFSET := 2

  // ---- The standard's definition, on big-endian words ---------------------------------------

  /** The aligned word at octet 2k, most significant octet first, an odd tail padded with zero. */
  function WordAt(s: seq<byte>, k: nat): word
    requires 2 * k < |s|
  {
    Word(s[2 * k], if 2 * k + 1 < |s| then s[2 * k + 1] else 0)
  }

  function WordsOf(s: seq<byte>): (ws: seq<word>)
    ensures |ws| == (|s| + 1) / 2
  {
    seq((|s| + 1) / 2, k requires 0 <= k < (|s| + 1) / 2 => WordAt(s, k))
  }

  function PseudoHeader(src: seq<byte>, dst: seq<byte>, length: nat): (pseudo: seq<byte>)
    requires length < TWO32
    ensures |pseudo| == |src| + |dst| + 8
  {
    src + dst + BigEndian32(length) + [0, 0, 0, NEXT_HEADER_ICMPV6]
  }

  /** Everything the checksum covers. */
  function Covered(src: seq<byte>, dst: seq<byte>, payload: seq<byte>): seq<byte>
    requires |payload| < TWO32
  {
    PseudoHeader(src, dst, |payload|) + payload
  }

  /** The checksum value of a message whose checksum field holds zero. */
  function RfcChecksum(src: seq<byte>, dst: seq<byte>, payload: seq<byte>): word
    requires |payload| < TWO32
  {
    0xFFFF - OnesSum(WordsOf(Covered(src, dst, payload)))
  }

  /** The receiver's rule of RFC 1071, section 1: with the field in place the sum is all ones. */
  predicate SumsToAllOnes(src: seq<byte>, dst: seq<byte>, payload: seq<byte>)
    requires |payload| < TWO32
  {
    OnesSum(WordsOf(Covered(src, dst, payload))) == 0xFFFF
  }

  // ---- What a little-endian host adds up ----------------------------------------------------

  /** The sum of the 16-bit loads of a little-endian host, an odd last octet added as it is. */
  function HostTotal(s: seq<byte>): nat {
    if |s| == 0 then 0
    else if |s| == 1 then s[0]
    else Word(s[1], s[0]) + HostTotal(s[2..])
  }

  lemma {:induction false} HostTotalConcat(a: seq<byte>, b: seq<byte>)
    requires |a| % 2 == 0
    ensures HostTotal(a + b) == HostTotal(a) + HostTotal(b)
  {
    if a == [] {
      assert a + b == b;
    } else {
      assert (a + b)[2..] == a[2..] + b;
      HostTotalConcat(a[2..], b);
    }
  }

  lemma {:induction false} HostTotalBound(s: seq<byte>)
    ensures HostTotal(s) <= 0xFFFF * ((|s| + 1) / 2)
  {
    if |s| >= 2 {
      HostTotalBound(s[2..]);
    }
  }

  /** 256 times the big-endian total is the little-endian total modulo 65535. */
  lemma {:induction false} ByteOrdersCongruent(s: seq<byte>) returns (k: nat)
    ensures 0x100 * Total(WordsOf(s)) == HostTotal(s) + 0xFFFF * k
    ensures HostTotal(s) == 0 <==> Total(WordsOf(s)) == 0
  {
    if |s| == 0 {
      k := 0;
    } else if |s| == 1 {
      k := s[0];
      assert WordsOf(s)[1..] == [];
    } else {
      assert WordsOf(s)[1..] == WordsOf(s[2..]);
      var k' := ByteOrdersCongruent(s[2..]);
      k := k' + s[0];
    }
  }

  function Swap(w: word): word {
    w % 0x100 * 0x100 + w / 0x100
  }

  /** RFC 1071, section 2(B): the folded host sum is the byte-swapped one's-complement sum. */
  lemma HostSumIsSwappedSum(s: seq<byte>)
    ensures Canonical(HostTotal(s)) == Swap(OnesSum(WordsOf(s)))
  {
    var t := Total(WordsOf(s));
    var c := Canonical(t);
    OnesSumIsCanonicalTotal(WordsOf(s));
    var k := ByteOrdersCongruent(s);
    var m := CanonicalQuotient(t);
    assert 0x100 * (c as int) == Swap(c) + 0xFFFF * ((c as int) / 0x100);
    CanonicalUnique(HostTotal(s), Swap(c), c / 0x100 + 0x100 * m - k);
  }

  /** What the host stores for its complemented sum are the octets of the true complement. */
  lemma StoredComplement(w: word)
    ensures LittleEndian(0xFFFF - Swap(w)) == BigEndian(0xFFFF - w)
  {
    var high, low := (w as int) / 0x100, (w as int) % 0x100;
    assert 0xFFFF - w == 0x100 * (0xFF - high) + (0xFF - low);
    assert 0xFFFF - Swap(w) == 0x100 * (0xFF - low) + (0xFF - high);
  }

  lemma StoredIs(w: word, v: word)
    requires LittleEndian(w) == BigEndian(v)
    ensures 0x100 * (w % 0x100) + w / 0x100 == v
  {
    assert LittleEndian(w)[0] == BigEndian(v)[0] && LittleEndian(w)[1] == BigEndian(v)[1];
  }

  lemma WordAtConcat(a: seq<byte>, b: seq<byte>, n: nat, k: nat)
    requires |a| == 2 * n && 2 * k < |a| + |b|
    ensures WordAt(a + b, k) == if k < n then WordAt(a, k) else WordAt(b, k - n)
  {
  }

  lemma WordsOfConcat(a: seq<byte>, b: seq<byte>)
    requires |a| % 2 == 0
    ensures WordsOf(a + b) == WordsOf(a) + WordsOf(b)
  {
    hide WordAt;
    var n := |a| / 2;
    forall k | 0 <= k < |WordsOf(a + b)|
      ensures WordsOf(a + b)[k] == (WordsOf(a) + WordsOf(b))[k]
    {
      WordAtConcat(a, b, n, k);
    }
  }

  /** The part of the total that does not depend on the payload's octets. */
  function PseudoTotal(src: seq<byte>, dst: seq<byte>, length: nat): nat
    requires length < TWO32
  {
    Total(WordsOf(PseudoHeader(src, dst, length)))
  }

  /** The next header value alone makes the pseudo-header's total positive. */
  lemma PseudoTotalIsPositive(src: seq<byte>, dst: seq<byte>, length: nat)
    requires |src| == |dst| == 16 && length < TWO32
    ensures PseudoTotal(src, dst, length) > 0
  {
    var pseudo := PseudoHeader(src, dst, length);
    var tail := [0, NEXT_HEADER_ICMPV6];
    assert pseudo == pseudo[..38] + tail;
    WordsOfConcat(pseudo[..38], tail);
    TotalConcat(WordsOf(pseudo[..38]), WordsOf(tail));
    assert WordsOf(tail) == [NEXT_HEADER_ICMPV6];
  }

  lemma OnesSumOfConcat(a: seq<byte>, b: seq<byte>)
    requires |a| % 2 == 0
    ensures OnesSum(WordsOf(a + b)) == Canonical(Total(WordsOf(a)) + Total(WordsOf(b)))
  {
    WordsOfConcat(a, b);
    TotalConcat(WordsOf(a), WordsOf(b));
    OnesSumIsCanonicalTotal(WordsOf(a + b));
  }

  /** The covered total splits into the pseudo-header's and the payload's. */
  lemma CoveredTotal(src: seq<byte>, dst: seq<byte>, payload: seq<byte>)
    requires |src| == |dst| == 16 && |payload| < TWO32
    ensures PseudoTotal(src, dst, |payload|) > 0
    ensures OnesSum(WordsOf(Covered(src, dst, payload)))
            == Canonical(PseudoTotal(src, dst, |payload|) + Total(WordsOf(payload)))
  {
    PseudoTotalIsPositive(src, dst, |payload|);
    OnesSumOfConcat(PseudoHeader(src, dst, |payload|), payload);
  }

  /** A checksum is never all ones, so 0xFFFF is never a value that is sent. */
  lemma ChecksumIsNotAllOnes(src: seq<byte>, dst: seq<byte>, payload: seq<byte>)
    requires |src| == |dst| == 16 && |payload| < TWO32
    ensures RfcChecksum(src, dst, payload) != 0xFFFF
  {
    CoveredTotal(src, dst, payload);
    var _ := CanonicalQuotient(PseudoTotal(src, dst, |payload|) + Total(WordsOf(payload)));
  }

  // ---- In plain numbers ---------------------------------------------------------------------

  /** The octets of a text added up as big-endian 16-bit numbers. */
  function Weighted(s: seq<byte>): nat {
    if s == [] then 0
    else if |s| == 1 then 256 * s[0]
    else 256 * s[0] + s[1] + Weighted(s[2..])
  }

  /** Addresses, upper-layer length, next header 58 and payload, added up without any carry. */
  function PlainTotal(src: seq<byte>, dst: seq<byte>, length: nat, payload: seq<byte>): (total: nat)
    ensures total > 0
  {
    Weighted(src) + Weighted(dst) + length / 65536 + length % 65536 + 58 + Weighted(payload)
  }

  lemma {:induction false} WeightedIsTotal(s: seq<byte>)
    ensures Weighted(s) == Total(WordsOf(s))
  {
    if |s| == 1 {
      assert WordsOf(s) == [WordAt(s, 0)] && WordsOf(s)[1..] == [];
    } else if |s| > 1 {
      assert WordsOf(s)[1..] == WordsOf(s[2..]);
      WeightedIsTotal(s[2..]);
    }
  }

  lemma {:induction false} WeightedConcat(a: seq<byte>, b: seq<byte>)
    requires |a| % 2 == 0
    ensures Weighted(a + b) == Weighted(a) + Weighted(b)
  {
    if a == [] {
      assert a + b == b;
    } else {
      assert (a + b)[2..] == a[2..] + b;
      WeightedConcat(a[2..], b);
    }
  }

  lemma WeightedPair(high: byte, low: byte)
    ensures Weighted([high, low]) == 256 * (high as nat) + (low as nat)
  {
    assert [high, low][2..] == [];
  }

  lemma WeightedTail(length: nat)
    requires length < TWO32
    ensures Weighted(BigEndian32(length) + [0, 0, 0, NEXT_HEADER_ICMPV6]) == length / 65536 + length % 65536 + 58
  {
    var high, low := length / 65536, length % 65536;
    assert BigEndian32(length) == [high / 256, high % 256] + [low / 256, low % 256];
    assert BigEndian32(length) + [0, 0, 0, NEXT_HEADER_ICMPV6]
           == [high / 256, high % 256] + ([low / 256, low % 256] + ([0, 0] + [0, 58]));
    WeightedConcat([high / 256, high % 256], [low / 256, low % 256] + ([0, 0] + [0, 58]));
    WeightedConcat([low / 256, low % 256], [0, 0] + [0, 58]);
    WeightedConcat([0, 0], [0, 58]);
    WeightedPair(high / 256, high % 256);
    WeightedPair(low / 256, low % 256);
    WeightedPair(0, 0);
    WeightedPair(0, 58);
  }

  lemma CoveredIsPlainTotal(src: seq<byte>, dst: seq<byte>, payload: seq<byte>)
    requires |src| == |dst| == 16 && |payload| < TWO32
    ensures Total(WordsOf(Covered(src, dst, payload))) == PlainTotal(src, dst, |payload|, payload)
  {
    var tail := BigEndian32(|payload|) + [0, 0, 0, NEXT_HEADER_ICMPV6];
    WeightedIsTotal(Covered(src, dst, payload));
    assert Covered(src, dst, payload) == src + (dst + (tail + payload));
    WeightedConcat(src, dst + (tail + payload));
    WeightedConcat(dst, tail + payload);
    WeightedConcat(tail, payload);
    WeightedTail(|payload|);
  }

  /** The checksum is the one number below 65535 that brings the plain total to a multiple of 65535. */
  lemma ChecksumIff(src: seq<byte>, dst: seq<byte>, payload: seq<byte>, v: nat)
    requires |src| == |dst| == 16 && |payload| < TWO32
    ensures v == RfcChecksum(src, dst, payload)
            <==> v < 65535 && (v + PlainTotal(src, dst, |payload|, payload)) % 65535 == 0
  {
    hide Covered, PlainTotal, Canonical;
    var total := PlainTotal(src, dst, |payload|, payload);
    CoveredIsPlainTotal(src, dst, payload);
    OnesSumIsCanonicalTotal(WordsOf(Covered(src, dst, payload)));
    var k := CanonicalQuotient(total);
    Complements(total, Canonical(total), k, v);
  }

  lemma Complements(total: nat, c: nat, k: nat, v: nat)
    requires total == c + 0xFFFF * k && 0 < c <= 0xFFFF
    ensures v == 0xFFFF - c <==> v < 65535 && (v + total) % 65535 == 0
  {
    assert (v + total) % 65535 == (v + c) % 65535;
  }

  /** The receiver's rule: the plain total, checksum field included, is a multiple of 65535. */
  lemma SumsToAllOnesIff(src: seq<byte>, dst: seq<byte>, payload: seq<byte>)
    requires |src| == |dst| == 16 && |payload| < TWO32
    ensures SumsToAllOnes(src, dst, payload) <==> PlainTotal(src, dst, |payload|, payload) % 65535 == 0
  {
    hide Covered, PlainTotal, Canonical;
    var total := PlainTotal(src, dst, |payload|, payload);
    CoveredIsPlainTotal(src, dst, payload);
    OnesSumIsCanonicalTotal(WordsOf(Covered(src, dst, payload)));
    var k := CanonicalQuotient(total);
    Complements(total, Canonical(total), k, 0);
  }

  // ---- The computation ----------------------------------------------------------------------

  /** Four octets read as a number, most significant first. */
  function Number(s: seq<byte>): nat
    requires |s| == 4
  {
    ((256 * s[0] as nat + s[1] as nat) * 256 + s[2] as nat) * 256 + s[3] as nat
  }

  lemma NumberOfLength(n: nat)
    requires n < TWO32
    ensures Number(BigEndian32(n)) == n
  {
    var high, low := n / 0x1_0000, n % 0x1_0000;
    assert BigEndian32(n) == [high / 0x100, high % 0x100, low / 0x100, low % 0x100];
  }

  /** The pseudo-header is built in a buffer of its own. */
  method BuildPseudoHeader(hdr: array<byte>, len: nat) returns (buffer: array<byte>)
    requires hdr.Length >= 40 && len < TWO32
    ensures fresh(buffer) && buffer[..] == PseudoHeader(hdr[8..24], hdr[24..40], len)
    ensures buffer.Length == 40 && buffer[..16] == hdr[8..24] && buffer[16..32] == hdr[24..40]
    ensures Number(buffer[32..36]) == len
    ensures buffer[36..] == [0, 0, 0, 58]
  {
    buffer := new byte[40](_ => 0);
    forall i | 0 <= i < 16 {
      buffer[i] := hdr[8 + i];
    }
    forall i | 0 <= i < 16 {
      buffer[16 + i] := hdr[24 + i];
    }
    var ulplen := BigEndian32(len);
    forall i | 0 <= i < 4 {
      buffer[32 + i] := ulplen[i];
    }
    buffer[39] := NEXT_HEADER_ICMPV6;
    assert buffer[..16] == hdr[8..24] && buffer[16..32] == hdr[24..40];
    NumberOfLength(len);
    assert buffer[32..36] == ulplen && buffer[36..] == [0, 0, 0, NEXT_HEADER_ICMPV6];
    InFourParts(buffer[..], hdr[8..24], hdr[24..40], ulplen, [0, 0, 0, NEXT_HEADER_ICMPV6]);
  }

  lemma InFourParts(s: seq<byte>, a: seq<byte>, b: seq<byte>, c: seq<byte>, d: seq<byte>)
    requires |s| == 40 && s[..16] == a && s[16..32] == b && s[32..36] == c && s[36..] == d
    ensures s == a + b + c + d
  {
  }

  method SumPseudoHeader(buffer: array<byte>) returns (sum: nat)
    requires buffer.Length % 2 == 0
    ensures sum == HostTotal(buffer[..])
  {
    sum := 0;
    var offset := 0;
    assert buffer[0..] == buffer[..];
    while offset < buffer.Length
      invariant 0 <= offset <= buffer.Length && offset % 2 == 0
      invariant sum + HostTotal(buffer[offset..]) == HostTotal(buffer[..])
    {
      assert buffer[offset..][2..] == buffer[offset + 2..];
      sum := sum + Word(buffer[offset + 1], buffer[offset]);
      offset := offset + 2;
    }
  }

  /** The payload loop stops before an odd last octet, which is then added alone. */
  method SumPayload(payload: array<byte>, len: nat, start: nat) returns (sum: nat)
    requires len <= payload.Length
    ensures sum == start + HostTotal(payload[..len])
  {
    ghost var data := payload[..len];
    sum := start;
    var offset := 0;
    while len > 0 && offset < len - 1
      invariant 0 <= offset <= len && offset % 2 == 0
      invariant sum + HostTotal(data[offset..]) == start + HostTotal(data)
      decreases len - offset
    {
      assert data[offset..][2..] == data[offset + 2..];
      sum := sum + Word(payload[offset + 1], payload[offset]);
      offset := offset + 2;
    }
    if len % 2 != 0 {
      sum := sum + payload[len - 1];
    }
  }

  /**
   The libraw computation on a little-endian host. Its result, laid down in memory,
   is the standard's checksum in network order, for every payload shorter than 2^32.
   The plain sum stays within a signed 64-bit integer.
   */
  method Icmp6Checksum(hdr: array<byte>, payload: array<byte>, len: nat) returns (cksum: word)
    requires hdr.Length >= 40
    requires len <= payload.Length && len < TWO32
    ensures LittleEndian(cksum) == BigEndian(RfcChecksum(hdr[8..24], hdr[24..40], payload[..len]))
    ensures var stored := 0x100 * (cksum % 0x100) + cksum / 0x100;
            stored < 65535 && (stored + PlainTotal(hdr[8..24], hdr[24..40], len, payload[..len])) % 65535 == 0
  {
    hide RfcChecksum, PlainTotal, OnesSum, Canonical;
    var buffer := BuildPseudoHeader(hdr, len);
    var sum := SumPseudoHeader(buffer);
    sum := SumPayload(payload, len, sum);

    ghost var covered := Covered(hdr[8..24], hdr[24..40], payload[..len]);
    HostTotalConcat(buffer[..], payload[..len]);
    HostTotalBound(covered);
    assert sum == HostTotal(covered) < 0x8000_0000_0000_0000;

    var folded, _ := CarryFold(sum);
    cksum := 0xFFFF - folded;
    ResultIs(hdr[8..24], hdr[24..40], payload[..len], cksum);
  }

  /** The complement of the folded host sum, as it is stored. */
  lemma ResultIs(src: seq<byte>, dst: seq<byte>, payload: seq<byte>, cksum: word)
    requires |src| == |dst| == 16 && |payload| < TWO32
    requires cksum == 0xFFFF - Canonical(HostTotal(Covered(src, dst, payload)))
    ensures LittleEndian(cksum) == BigEndian(RfcChecksum(src, dst, payload))
    ensures var stored := 0x100 * (cksum % 0x100) + cksum / 0x100;
            stored < 65535 && (stored + PlainTotal(src, dst, |payload|, payload)) % 65535 == 0
  {
    hide Canonical, Covered, PlainTotal, HostTotal, OnesSum, WordsOf;
    var covered := Covered(src, dst, payload);
    HostSumIsSwappedSum(covered);
    StoredComplement(OnesSum(WordsOf(covered)));
    StoredIs(cksum, RfcChecksum(src, dst, payload));
    ChecksumIff(src, dst, payload, RfcChecksum(src, dst, payload));
  }

  /** The carry loop runs at most three times, and at most twice for payloads Java may pass. */
  lemma CarryRounds(src: seq<byte>, dst: seq<byte>, payload: seq<byte>)
    requires |src| == |dst| == 16 && |payload| < TWO32
    ensures FoldRounds(HostTotal(Covered(src, dst, payload))) <= if |payload| <= 2048 then 2 else 3
  {
    HostTotalBound(Covered(src, dst, payload));
    FoldRoundsBound(HostTotal(Covered(src, dst, payload)));
  }

  datatype Exception = NullPointer | IndexOutOfBounds | IllegalArgument

  datatype Result<+T> = Ok(value: T) | Thrown(exception: Exception) {
    predicate IsFailure() { Thrown? }
    function PropagateFailure<U>(): Result<U>
      requires Thrown?
    {
      Thrown(exception)
    }
    function Extract(): T
      requires Ok?
    {
      value
    }
  }

  /** Whether the argument checks of the Java entry point let the computation start. */
  predicate ArgumentsAccepted(hdr: nat, hdrOffset: int, payload: nat, payloadOffset: int, payloadLength: int) {
    && 0 <= hdrOffset && 0 <= payloadOffset
    && 0 <= payloadLength <= 2048
    && hdr - hdrOffset >= 40
    && payload - payloadOffset >= payloadLength
  }

  lemma SubSlice(copy: seq<byte>, s: seq<byte>, offset: nat, i: nat, j: nat)
    requires i <= j <= |copy| && offset + |copy| <= |s| && copy == s[offset..offset + |copy|]
    ensures copy[i..j] == s[offset + i..offset + j]
  {
    var x, y := copy[i..j], s[offset + i..offset + j];
    forall k | 0 <= k < |x|
      ensures x[k] == y[k]
    {
      assert x[k] == copy[i + k] == s[offset + (i + k)];
    }
    assert x == y;
  }

  /** The copy of a region of a Java array to the front of a fixed buffer. */
  method CopyRegion(source: array<byte>, start: nat, len: nat, buf: array<byte>)
    requires start + len <= source.Length && len <= buf.Length && source != buf
    modifies buf
    ensures buf[..len] == source[start..start + len]
  {
    forall i | 0 <= i < len {
      buf[i] := source[start + i];
    }
  }

  /** The Java entry point: argument checks, copies into fixed buffers, two result octets. */
  method JavaChecksum(hdr: array?<byte>, hdrOffset: int, payload: array?<byte>, payloadOffset: int, payloadLength: int)
    returns (r: Result<seq<byte>>)
    ensures hdr == null || payload == null ==> r == Thrown(NullPointer)
    ensures hdr != null && payload != null ==>
              r == if ArgumentsAccepted(hdr.Length, hdrOffset, payload.Length, payloadOffset, payloadLength) then
                     Ok(BigEndian(RfcChecksum(hdr[hdrOffset + 8..hdrOffset + 24], hdr[hdrOffset + 24..hdrOffset + 40],
                                              payload[payloadOffset..payloadOffset + payloadLength])))
                   else
                     Thrown(IllegalArgument)
  {
    hide RfcChecksum, PlainTotal;
    if hdr == null || payload == null {
      return Thrown(NullPointer);
    }
    if hdrOffset < 0 || payloadOffset < 0 || payloadLength < 0 || payloadLength > 2048
       || hdr.Length - hdrOffset < 40 || payload.Length - payloadOffset < payloadLength {
      return Thrown(IllegalArgument);
    }
    var hdrbuffer := new byte[40](_ => 0);
    var payloadbuffer := new byte[2048](_ => 0);
    CopyRegion(hdr, hdrOffset, 40, hdrbuffer);
    CopyRegion(payload, payloadOffset, payloadLength, payloadbuffer);
    var cksum := Icmp6Checksum(hdrbuffer, payloadbuffer, payloadLength);
    assert hdrbuffer[..] == hdrbuffer[..40];
    SubSlice(hdrbuffer[..], hdr[..], hdrOffset, 8, 24);
    SubSlice(hdrbuffer[..], hdr[..], hdrOffset, 24, 40);
    r := Ok(LittleEndian(cksum));
  }
}

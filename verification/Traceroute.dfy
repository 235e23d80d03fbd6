/** The traceroute: probes for every hop and attempt, and the wait for their replies. */
module Traceroute {
  import opened Bytes
  import opened Checksum
  import opened ErrorDetection
  import opened HeaderWalk
  import opened Responses
  import opened RawRead
  import opened Tracing

  const ECHO_REQUEST: byte := 128
  const ICMP_LENGTH: word := 8
  const PROBE_LENGTH := 48
  const INT_MAX := 0x7FFF_FFFF

  // ---- The probes ---------------------------------------------------------------------------

  function ProbeHeader(src: seq<byte>, dst: seq<byte>, hop: int): seq<byte> {
    [VERSION_IPV6, 0, 0, 0] + BigEndian(ICMP_LENGTH) + [NEXT_HEADER_ICMPV6, hop % 0x100] + src + dst
  }

  /** The Echo Request with its checksum field cleared. */
  function EchoRequest(sequence: word): seq<byte> {
    [ECHO_REQUEST, 0, 0, 0, IDENTIFIER, 0] + BigEndian(sequence)
  }

  /** The probe with this hop limit and sequence number, checksum included. */
  function Probe(src: seq<byte>, dst: seq<byte>, hop: int, sequence: word): seq<byte> {
    var message := EchoRequest(sequence);
    ProbeHeader(src, dst, hop) + message[..2] + BigEndian(RfcChecksum(src, dst, message)) + message[4..]
  }

  /** How many attempts come before attempt `a` of hop `h`, both counted from 0. */
  function Position(attempts: nat, h: nat, a: nat): nat {
    h * attempts + a
  }

  /** The probes of `h` whole hops and `a` attempts of the next one, numbered modulo 65536. */
  function Probes(src: seq<byte>, dst: seq<byte>, attempts: nat, h: nat, a: nat): seq<seq<byte>>
    decreases h, a
  {
    if a > 0 then
      Probes(src, dst, attempts, h, a - 1) + [Probe(src, dst, h + 1, Position(attempts, h, a - 1) % 0x1_0000)]
    else if h > 0 then Probes(src, dst, attempts, h - 1, attempts)
    else []
  }

  lemma {:induction false} WholeHops(attempts: nat, i: nat, h: nat)
    requires i < h
    ensures Position(attempts, i, attempts) <= Position(attempts, h, 0)
    ensures i == h - 1 ==> Position(attempts, i, attempts) == Position(attempts, h, 0)
    decreases h
  {
    assert h * attempts == (h - 1) * attempts + attempts;
    if i < h - 1 {
      WholeHops(attempts, i, h - 1);
    }
  }

  lemma PositionStep(attempts: nat, h: nat, a: nat, b: nat)
    ensures Position(attempts, h, a + b) == Position(attempts, h, a) + b
    ensures Position(attempts, 0, a) == a
  {
  }

  /** Attempts are ordered by hop, then by attempt. */
  predicate Earlier(i: nat, j: nat, h: nat, a: nat) {
    i < h || (i == h && j < a)
  }

  lemma PositionsOrdered(attempts: nat, i: nat, j: nat, h: nat, a: nat)
    requires j < attempts && Earlier(i, j, h, a)
    ensures Position(attempts, i, j) < Position(attempts, h, a)
  {
    if i < h {
      WholeHops(attempts, i, h);
    }
  }

  lemma {:induction false} ProbesCounted(src: seq<byte>, dst: seq<byte>, attempts: nat, h: nat, a: nat)
    ensures |Probes(src, dst, attempts, h, a)| == Position(attempts, h, a)
    decreases h, a
  {
    hide Probe, Position;
    if a > 0 {
      ProbesCounted(src, dst, attempts, h, a - 1);
      PositionStep(attempts, h, a - 1, 1);
    } else if h > 0 {
      ProbesCounted(src, dst, attempts, h - 1, attempts);
      WholeHops(attempts, h - 1, h);
    } else {
      PositionStep(attempts, 0, 0, 0);
    }
  }

  /** The numbering: which probe stands where. */
  lemma {:induction false} ProbesNumbered(src: seq<byte>, dst: seq<byte>, attempts: nat, h: nat, a: nat, i: nat, j: nat)
    requires j < attempts && a <= attempts && Earlier(i, j, h, a)
    ensures |Probes(src, dst, attempts, h, a)| == Position(attempts, h, a) > Position(attempts, i, j)
    ensures Probes(src, dst, attempts, h, a)[Position(attempts, i, j)]
            == Probe(src, dst, i + 1, Position(attempts, i, j) % 0x1_0000)
    decreases h, a
  {
    hide Probe, Position;
    ProbesCounted(src, dst, attempts, h, a);
    PositionsOrdered(attempts, i, j, h, a);
    if a > 0 {
      ProbesCounted(src, dst, attempts, h, a - 1);
      if i < h || j < a - 1 {
        ProbesNumbered(src, dst, attempts, h, a - 1, i, j);
      }
    } else {
      ProbesNumbered(src, dst, attempts, h - 1, attempts, i, j);
    }
  }

  lemma HeaderAddresses(src: seq<byte>, dst: seq<byte>, hop: int)
    requires |src| == |dst| == 16
    ensures var h := ProbeHeader(src, dst, hop);
            |h| == 40 && h[8..24] == src && h[24..40] == dst
  {
  }

  /** The sequence number a packet carries. */
  function SequenceOf(packet: seq<byte>): word
    requires |packet| == PROBE_LENGTH
  {
    Word(packet[46], packet[47])
  }

  lemma ProbeFields(src: seq<byte>, dst: seq<byte>, hop: int, sequence: word)
    requires |src| == |dst| == 16
    ensures var p := Probe(src, dst, hop, sequence);
            && |p| == PROBE_LENGTH && p[7] == hop % 0x100 && SequenceOf(p) == sequence
            && p[8..24] == src && p[24..40] == dst
            && p[42..44] == BigEndian(RfcChecksum(src, dst, EchoRequest(sequence)))
            && p[40..] == EchoRequest(sequence)[..2] + p[42..44] + EchoRequest(sequence)[4..]
  {
    hide RfcChecksum;
  }

  /** The 48 octets of a probe, and the one value below 65535 that its checksum field may have. */
  lemma ProbeOctets(src: seq<byte>, dst: seq<byte>, hop: int, sequence: word)
    requires |src| == |dst| == 16
    ensures var p := Probe(src, dst, hop, sequence);
            && |p| == 48
            && p == [0x60, 0, 0, 0, 0, 8, 58, hop % 256] + src + dst
                    + [128, 0, p[42], p[43], 0xAB, 0, sequence / 256, sequence % 256]
            && var v := 256 * (p[42] as nat) + p[43] as nat;
            v < 65535 && (v + Weighted(src) + Weighted(dst) + 8 + 58 + (128 + 0xAB) * 256 + sequence) % 65535 == 0
  {
    hide RfcChecksum, Weighted, Probe, ProbeHeader, EchoRequest, BigEndian;
    var header, message := ProbeHeader(src, dst, hop), EchoRequest(sequence);
    HeaderOctets(src, dst, hop);
    RequestSum(sequence);
    var cksum := RfcChecksum(src, dst, message);
    ChecksumIff(src, dst, message, cksum);
    FieldIs(cksum);
    ProbeIs(src, dst, hop, sequence);
    WithField(header, message, BigEndian(cksum));
  }

  lemma ProbeIs(src: seq<byte>, dst: seq<byte>, hop: int, sequence: word)
    ensures var message := EchoRequest(sequence);
            Probe(src, dst, hop, sequence)
            == ProbeHeader(src, dst, hop) + message[..2] + BigEndian(RfcChecksum(src, dst, message)) + message[4..]
  {
    hide RfcChecksum, ProbeHeader, EchoRequest;
  }

  lemma HeaderOctets(src: seq<byte>, dst: seq<byte>, hop: int)
    requires |src| == |dst| == 16
    ensures ProbeHeader(src, dst, hop) == [0x60, 0, 0, 0, 0, 8, 58, hop % 256] + src + dst
    ensures |ProbeHeader(src, dst, hop)| == 40
  {
    assert [0x60, 0, 0, 0] + BigEndian(8) + [58, hop % 256] == [0x60, 0, 0, 0, 0, 8, 58, hop % 256];
  }

  lemma FieldIs(w: word)
    ensures 256 * (BigEndian(w)[0] as nat) + BigEndian(w)[1] as nat == w
  {
  }

  lemma WithField(header: seq<byte>, m: seq<byte>, c: seq<byte>)
    requires |header| == 40 && |m| == 8 && |c| == 2
    ensures var p := header + m[..2] + c + m[4..];
            && |p| == 48 && p[42] == c[0] && p[43] == c[1]
            && p == header + [m[0], m[1], p[42], p[43], m[4], m[5], m[6], m[7]]
  {
  }

  lemma RequestSum(sequence: word)
    ensures EchoRequest(sequence) == [128, 0, 0, 0, 0xAB, 0, sequence / 256, sequence % 256]
    ensures Weighted(EchoRequest(sequence)) == (128 + 0xAB) * 256 + sequence
  {
    EightOctets(128, 0, 0, 0, 0xAB, 0, sequence / 256, sequence % 256);
    assert EchoRequest(sequence) == [128, 0, 0, 0, 0xAB, 0, sequence / 256, sequence % 256];
  }

  lemma EightOctets(a: byte, b: byte, c: byte, d: byte, e: byte, f: byte, g: byte, h: byte)
    ensures Weighted([a, b, c, d, e, f, g, h])
            == 256 * ((a as nat) + c as nat + e as nat + g as nat) + b as nat + d as nat + f as nat + h as nat
  {
    assert [a, b, c, d, e, f, g, h] == [a, b] + ([c, d] + ([e, f] + [g, h]));
    WeightedConcat([a, b], [c, d] + ([e, f] + [g, h]));
    WeightedConcat([c, d], [e, f] + [g, h]);
    WeightedConcat([e, f], [g, h]);
    WeightedPair(a, b);
    WeightedPair(c, d);
    WeightedPair(e, f);
    WeightedPair(g, h);
  }

  /**
   The Echo Reply that a host makes of a probe, with type 129, the addresses exchanged and
   its checksum filled in, is answered with the host's address.
   */
  lemma EchoOfProbeAnswered(src: seq<byte>, dst: seq<byte>, limit: byte, sequence: word, high: byte, low: byte)
    requires |src| == |dst| == 16
    requires var v := 256 * (high as nat) + low as nat;
             v < 65535 && (v + Weighted(dst) + Weighted(src) + 8 + 58 + (129 + 0xAB) * 256 + sequence) % 65535 == 0
    ensures var b := [0x60, 0, 0, 0, 0, 8, 58, limit] + dst + src
                     + [129, 0, high, low, 0xAB, 0, sequence / 256, sequence % 256];
            Judge(b, src) == Ok(Reply(dst))
  {
    hide Judge, Weighted;
    var tail := [129, 0, high, low, 0xAB, 0, sequence / 256, sequence % 256];
    var b := [0x60, 0, 0, 0, 0, 8, 58, limit] + dst + src + tail;
    assert b[8..24] == dst && b[24..40] == src && b[40..] == tail;
    EightOctets(129, 0, high, low, 0xAB, 0, sequence / 256, sequence % 256);
    AnswersOctets(b, src, dst);
  }

  /** As long as no more than 65536 probes have been sent, no sequence number repeats. */
  lemma SequenceNumbersDistinct(src: seq<byte>, dst: seq<byte>, attempts: nat, h: nat, a: nat,
                                i: nat, j: nat, k: nat, l: nat)
    requires |src| == |dst| == 16
    requires j < attempts && l < attempts && a <= attempts && Earlier(i, j, k, l) && Earlier(k, l, h, a)
    requires Position(attempts, h, a) <= 0x1_0000
    ensures var sent := Probes(src, dst, attempts, h, a);
            var m, n := Position(attempts, i, j), Position(attempts, k, l);
            && |sent| == Position(attempts, h, a) && m < n < |sent|
            && |sent[m]| == |sent[n]| == PROBE_LENGTH
            && SequenceOf(sent[m]) == m && SequenceOf(sent[n]) == n
  {
    hide Probe, Probes, SequenceOf, Position;
    var m, n := Position(attempts, i, j), Position(attempts, k, l);
    ProbesNumbered(src, dst, attempts, h, a, i, j);
    ProbesNumbered(src, dst, attempts, h, a, k, l);
    PositionsOrdered(attempts, i, j, k, l);
    assert m % 0x1_0000 == m && n % 0x1_0000 == n;
    ProbeFields(src, dst, i + 1, m);
    ProbeFields(src, dst, k + 1, n);
  }

  /** A receiver that follows RFC 1071 accepts every probe, and so does the program's own check. */
  lemma ProbeIsAccepted(src: seq<byte>, dst: seq<byte>, hop: int, sequence: word)
    requires |src| == |dst| == 16
    ensures |Probe(src, dst, hop, sequence)| == PROBE_LENGTH
    ensures SumsToAllOnes(src, dst, Probe(src, dst, hop, sequence)[40..])
    ensures ChecksumMatches(Probe(src, dst, hop, sequence), IPV6_HEADER) == Ok(true)
  {
    hide RfcChecksum, SumsToAllOnes, Probe, ChecksumMatches;
    ProbeFields(src, dst, hop, sequence);
    var p := Probe(src, dst, hop, sequence);
    var message, sent := EchoRequest(sequence), p[40..];
    var cksum := RfcChecksum(src, dst, message);
    assert sent[2..4] == BigEndian(cksum);
    assert Field(sent) == cksum && ClearedField(sent) == message by {
      assert sent[2] == sent[2..4][0] && sent[3] == sent[2..4][1];
      BigEndianValue(cksum, sent[2], sent[3]);
    }
    FilledInIsAccepted(src, dst, message, sent);
    ChecksumMatchesIff(p);
  }

  lemma BigEndianValue(w: word, high: byte, low: byte)
    requires BigEndian(w) == [high, low]
    ensures Word(high, low) == w
  {
    assert high == BigEndian(w)[0] && low == BigEndian(w)[1];
  }

  /** Seconds as an int of milliseconds, whose bits the library reads as unsigned. */
  function Milliseconds(timeout: int): (ms: nat)
    ensures ms < TWO32
  {
    timeout * 1000 % TWO32
  }

  /** Up to 2^32 milliseconds a timeout is what it says; beyond, what is left of it modulo 2^32. */
  lemma MillisecondsAre(timeout: int)
    ensures 0 <= timeout <= 4_294_967 ==> Milliseconds(timeout) == 1000 * timeout
    ensures (Milliseconds(timeout) - 1000 * timeout) % 4_294_967_296 == 0
  {
  }

  /** `for attempt = 1 to attempts` runs that often. */
  function Turns(attempts: int): nat {
    if attempts > 0 then attempts else 0
  }

  // ---- The program --------------------------------------------------------------------------

  class Tracer {
    const kernel: Kernel
    /** The result of the n-th write. */
    const writes: nat -> int
    const myIp: seq<byte>
    var stopProbes: bool
    var sequenceNumber: word
    var sent: seq<seq<byte>>
    var rows: seq<seq<Cell>>

    constructor (kernel: Kernel, writes: nat -> int, myIp: seq<byte>)
      ensures this.kernel == kernel && this.writes == writes && this.myIp == myIp
      ensures !stopProbes && sequenceNumber == 0 && sent == [] && rows == []
    {
      this.kernel, this.writes, this.myIp := kernel, writes, myIp;
      stopProbes, sequenceNumber, sent, rows := false, 0, [], [];
    }

    /** What the attempts of this program meet, each with so many milliseconds. */
    function Around(ms: nat): World {
      World(kernel.waits, writes, ms, myIp)
    }

    /** The octets of the reused header and payload arrays that no attempt writes. */
    ghost predicate Blank(ipHeader: array<byte>, payload: array<byte>)
      reads ipHeader, payload
    {
      && ipHeader != payload && ipHeader.Length == 40 && payload.Length == 8
      && ipHeader[1] == ipHeader[2] == ipHeader[3] == 0
      && payload[2] == payload[3] == payload[5] == 0
    }

    /** The arrays that all attempts share. */
    method NewArrays() returns (ipHeader: array<byte>, payload: array<byte>)
      ensures fresh(ipHeader) && fresh(payload) && Blank(ipHeader, payload)
    {
      ipHeader := new byte[40](_ => 0);
      payload := new byte[8](_ => 0);
    }

    method BuildHeader(ipHeader: array<byte>, payload: array<byte>, srcIp: seq<byte>, dstIp: seq<byte>, hops: int)
      requires |srcIp| == |dstIp| == 16 && Blank(ipHeader, payload)
      modifies ipHeader
      ensures Blank(ipHeader, payload) && ipHeader[..] == ProbeHeader(srcIp, dstIp, hops)
    {
      ipHeader[0] := VERSION_IPV6;
      var l := BigEndian(ICMP_LENGTH);
      ipHeader[4], ipHeader[5] := l[0], l[1];
      ipHeader[6] := NEXT_HEADER_ICMPV6;
      ipHeader[7] := hops % 0x100;
      forall i | 0 <= i < 16 {
        ipHeader[8 + i] := srcIp[i];
      }
      forall i | 0 <= i < 16 {
        ipHeader[24 + i] := dstIp[i];
      }
    }

    method BuildPayload(ipHeader: array<byte>, payload: array<byte>)
      requires Blank(ipHeader, payload)
      modifies payload, this`sequenceNumber
      ensures Blank(ipHeader, payload) && payload[..] == EchoRequest(old(sequenceNumber))
      ensures sequenceNumber == (old(sequenceNumber) + 1) % 0x1_0000
    {
      payload[0] := ECHO_REQUEST;
      payload[1] := 0;
      payload[4] := IDENTIFIER;
      var sequNum := BigEndian(sequenceNumber);
      sequenceNumber := (sequenceNumber + 1) % 0x1_0000;
      payload[6], payload[7] := sequNum[0], sequNum[1];
    }

    /** Fills header and payload, copies both into the packet, and puts the checksum in. */
    method BuildProbe(buffer: array<byte>, ipHeader: array<byte>, payload: array<byte>,
                      srcIp: seq<byte>, dstIp: seq<byte>, hops: int)
      requires |srcIp| == |dstIp| == 16
      requires buffer.Length == MTU && buffer != ipHeader && buffer != payload
      requires Blank(ipHeader, payload)
      modifies buffer, ipHeader, payload, this`sequenceNumber
      ensures Blank(ipHeader, payload)
      ensures buffer[..PROBE_LENGTH] == Probe(srcIp, dstIp, hops, old(sequenceNumber))
      ensures sequenceNumber == (old(sequenceNumber) + 1) % 0x1_0000
    {
      hide RfcChecksum, EchoRequest, ProbeHeader;
      BuildHeader(ipHeader, payload, srcIp, dstIp, hops);
      BuildPayload(ipHeader, payload);
      assert ipHeader[..] == ProbeHeader(srcIp, dstIp, hops);
      HeaderAddresses(srcIp, dstIp, hops);
      FillPacket(buffer, ipHeader, payload);
    }

    /** The two copies and the checksum of the packet under construction. */
    method FillPacket(buffer: array<byte>, ipHeader: array<byte>, payload: array<byte>)
      requires buffer.Length == MTU && ipHeader.Length == 40 && payload.Length == 8
      requires buffer != ipHeader && buffer != payload
      modifies buffer
      ensures var h, m := ipHeader[..], payload[..];
              buffer[..PROBE_LENGTH] == h + m[..2] + BigEndian(RfcChecksum(h[8..24], h[24..40], m)) + m[4..]
    {
      hide RfcChecksum;
      ghost var h, m := ipHeader[..], payload[..];
      forall i | 0 <= i < 40 {
        buffer[i] := ipHeader[i];
      }
      forall i | 0 <= i < 8 {
        buffer[40 + i] := payload[i];
      }
      assert buffer[0 + 8..0 + 24] == h[8..24] && buffer[0 + 24..0 + 40] == h[24..40];
      assert buffer[40..40 + 8] == m;
      var cksum := JavaChecksum(buffer, 0, buffer, 40, PROBE_LENGTH - 40);
      assert cksum.value == BigEndian(RfcChecksum(h[8..24], h[24..40], m));
      buffer[42], buffer[43] := cksum.value[0], cksum.value[1];
      assert buffer[..PROBE_LENGTH] == h + m[..2] + cksum.value + m[4..];
      assert ipHeader[..] == h && payload[..] == m;
    }

    /**
     The read loop of an attempt. It ends with a reply or when the timeout is used up,
     after at most one read more than the timeout has milliseconds.
     */
    method AwaitReply(buffer: array<byte>, limit: Timeout) returns (flow: Flow<Cell>, ghost readCount: nat)
      requires Punctual(kernel.waits) && limit.timeout < TWO32 && buffer.Length == MTU
      modifies kernel`calls, limit, buffer, this`stopProbes
      ensures var w := Awaited(kernel.waits, old(kernel.calls), old(limit.timeout), myIp);
              flow == w.flow && kernel.calls == w.calls && readCount == w.readCount
      ensures readCount <= old(limit.timeout) + 1
      ensures stopProbes == (old(stopProbes) || (flow.Normal? && flow.value.Host?))
    {
      hide Judge, ReadWith, Punctual, MillisLeft, Patience;
      readCount := 0;
      ghost var whole := Awaited(kernel.waits, kernel.calls, limit.timeout, myIp);
      while true
        invariant limit.timeout < TWO32 && stopProbes == old(stopProbes)
        invariant var w := Awaited(kernel.waits, kernel.calls, limit.timeout, myIp);
                  whole.flow == w.flow && whole.calls == w.calls && whole.readCount == readCount + w.readCount
        decreases limit.timeout
      {
        ghost var calls, ms := kernel.calls, limit.timeout;
        PunctualRead(kernel.waits, calls, ms * NANOS_PER_MILLI, false);
        ghost var r := ReadWith(kernel.waits, calls, ms * NANOS_PER_MILLI, false);
        var outcome := GrnvsRead(kernel, limit);
        readCount := readCount + 1;
        if outcome.Died? {
          return Exited, readCount;
        }
        if outcome.TimedOut? || outcome.octets == [] {
          return Normal(Star), readCount;
        }
        MillisLeftExact(ms, r.left);
        forall i | 0 <= i < |outcome.octets| {
          buffer[i] := outcome.octets[i];
        }
        var resp := new byte[|outcome.octets|](i requires 0 <= i < |outcome.octets| => outcome.octets[i]);
        assert resp[..] == outcome.octets;
        var answer := CheckMessage(resp, myIp);
        if answer.Thrown? {
          return Uncaught(answer.exception), readCount;
        }
        if answer.value.NoAnswer? {
          return Endless, readCount;
        }
        if answer.value.Reply? {
          stopProbes := true;
          return Normal(Host(answer.value.source)), readCount;
        }
      }
    }

    /** The probes sent so far are those of `h` hops and `a` attempts, and the next number follows. */
    ghost predicate Sent(srcIp: seq<byte>, dstIp: seq<byte>, attempts: nat, h: nat, a: nat)
      reads this`sent, this`sequenceNumber
    {
      && sent == Probes(srcIp, dstIp, attempts, h, a)
      && sequenceNumber == Position(attempts, h, a) % 0x1_0000
    }

    lemma SentMeans(srcIp: seq<byte>, dstIp: seq<byte>, attempts: nat, h: nat, a: nat)
      ensures sent == [] && sequenceNumber == 0 ==> Sent(srcIp, dstIp, attempts, 0, 0)
      ensures Sent(srcIp, dstIp, attempts, h, a) ==> sent == Probes(srcIp, dstIp, attempts, h, a)
    {
      NoProbes(srcIp, dstIp, attempts);
    }

    /** One attempt: build, send, and wait for the reply; only a failed write sends no probe. */
    method Attempt(srcIp: seq<byte>, dstIp: seq<byte>, ipHeader: array<byte>, payload: array<byte>, limit: Timeout,
                   milliseconds: nat, hops: nat, ghost attempts: nat, ghost a: nat)
      returns (flow: Flow<Cell>)
      requires Punctual(kernel.waits) && milliseconds < TWO32
      requires |srcIp| == |dstIp| == 16 && Blank(ipHeader, payload)
      requires hops > 0 && Sent(srcIp, dstIp, attempts, hops - 1, a)
      modifies kernel`calls, limit, ipHeader, payload, this`stopProbes, this`sequenceNumber, this`sent
      ensures Blank(ipHeader, payload)
      ensures var t := AttemptTrace(Around(milliseconds), old(kernel.calls), |old(sent)|);
              flow == t.flow && kernel.calls == t.calls && |sent| == t.probes
      ensures if writes(|old(sent)|) <= 0 then sent == old(sent) else Sent(srcIp, dstIp, attempts, hops - 1, a + 1)
      ensures stopProbes == (old(stopProbes) || (flow.Normal? && flow.value.Host?))
    {
      hide Punctual, Awaited, Probe;
      var buffer := new byte[MTU](_ => 0);
      limit.timeout := milliseconds;
      BuildProbe(buffer, ipHeader, payload, srcIp, dstIp, hops);
      var ret := writes(|sent|);
      if 0 >= ret {
        return Exited;
      }
      sent := sent + [buffer[..PROBE_LENGTH]];
      ghost var n;
      flow, n := AwaitReply(buffer, limit);
    }

    /** All attempts of one hop, also after a reply has arrived, until one does not end normally. */
    method Hop(srcIp: seq<byte>, dstIp: seq<byte>, ipHeader: array<byte>, payload: array<byte>, limit: Timeout,
               milliseconds: nat, attempts: int, hops: nat)
      returns (row: seq<Cell>, flow: Flow<()>, ghost a: nat)
      requires Punctual(kernel.waits) && milliseconds < TWO32 && attempts < INT_MAX
      requires |srcIp| == |dstIp| == 16 && Blank(ipHeader, payload)
      requires hops > 0 && Sent(srcIp, dstIp, Turns(attempts), hops - 1, 0) && !stopProbes
      modifies kernel`calls, limit, ipHeader, payload, this`stopProbes, this`sequenceNumber, this`sent
      ensures Blank(ipHeader, payload)
      ensures HopTrace(Around(milliseconds), old(kernel.calls), |old(sent)|, Turns(attempts))
              == Trace(row, flow, kernel.calls, |sent|)
      ensures a <= Turns(attempts) && sent == Probes(srcIp, dstIp, Turns(attempts), hops - 1, a)
      ensures flow.Normal? ==> Sent(srcIp, dstIp, Turns(attempts), hops, 0) && stopProbes == HasHost(row)
    {
      hide Punctual, Awaited, Probe, Position;
      ghost var world, calls, n := Around(milliseconds), kernel.calls, |sent|;
      row := [];
      var attempt := 1;
      a := 0;
      while attempt <= attempts
        invariant attempt == a + 1 && a <= Turns(attempts)
        invariant Blank(ipHeader, payload)
        invariant Sent(srcIp, dstIp, Turns(attempts), hops - 1, a)
        invariant HopTrace(world, calls, n, a) == Trace(row, Normal(()), kernel.calls, |sent|)
        invariant stopProbes == HasHost(row)
        decreases attempts - attempt
      {
        var cell := Attempt(srcIp, dstIp, ipHeader, payload, limit, milliseconds, hops, Turns(attempts), a);
        if !cell.Normal? {
          flow := cell.PropagateFailure();
          HopStays(world, calls, n, a + 1, Turns(attempts));
          if writes(n + a) > 0 {
            a := a + 1;
          }
          return;
        }
        HostAppended(row, cell.value);
        row := row + [cell.value];
        attempt := attempt + 1;
        a := a + 1;
      }
      WholeHops(Turns(attempts), hops - 1, hops);
      NextHop(srcIp, dstIp, Turns(attempts), hops);
      flow := Normal(());
    }

    /**
     The program, however it ends: what it prints, how it ends, the waits it makes and the
     probes it sends are those of the trace of the run, and these probes are those of the
     numbering, `h` whole hops and `a` attempts.
     */
    method Run(srcIp: seq<byte>, dstIp: seq<byte>, timeout: int, attempts: int, hopLimit: int)
      returns (flow: Flow<()>, ghost h: nat, ghost a: nat)
      requires Punctual(kernel.waits)
      requires |srcIp| == |dstIp| == 16
      requires attempts < INT_MAX && hopLimit < INT_MAX
      requires sent == [] && rows == []
      modifies this, kernel`calls
      ensures RunTrace(Around(Milliseconds(timeout)), old(kernel.calls), 0, Turns(attempts), Turns(hopLimit))
              == Trace(rows, flow, kernel.calls, |sent|)
      ensures 0 <= timeout <= 4_294_967 ==>
                RunTrace(Around(1000 * timeout), old(kernel.calls), 0,
                         if attempts > 0 then attempts else 0, if hopLimit > 0 then hopLimit else 0)
                == Trace(rows, flow, kernel.calls, |sent|)
      ensures a <= Turns(attempts) && sent == Probes(srcIp, dstIp, Turns(attempts), h, a)
      ensures if flow.Normal? then h == |rows| && a == 0 else h == |rows| - 1
    {
      hide Punctual, RunTrace, HopTrace, Arrived, Probe, Probes, Position, HasHost, Milliseconds, Turns,
           Sent, Blank;
      ghost var world, calls := Around(Milliseconds(timeout)), kernel.calls;
      TurnsOf(attempts);
      TurnsOf(hopLimit);
      MillisecondsAre(timeout);
      var ipHeader, payload := NewArrays();
      stopProbes := false;
      sequenceNumber := 0;
      var hops := 1;
      var limit := new Timeout(Milliseconds(timeout));
      h, a := 0, 0;
      SentMeans(srcIp, dstIp, Turns(attempts), 0, 0);
      RunStep(world, calls, 0, Turns(attempts), 0);
      while !stopProbes && hops <= hopLimit
        invariant hops == h + 1 && h == |rows| <= Turns(hopLimit) && a == 0
        invariant Blank(ipHeader, payload)
        invariant Sent(srcIp, dstIp, Turns(attempts), h, 0)
        invariant RunTrace(world, calls, 0, Turns(attempts), h) == Trace(rows, Normal(()), kernel.calls, |sent|)
        invariant stopProbes == Arrived(rows)
        decreases hopLimit - hops
      {
        RunStep(world, calls, 0, Turns(attempts), h);
        var row;
        row, flow, a := Hop(srcIp, dstIp, ipHeader, payload, limit, Milliseconds(timeout), attempts, hops);
        rows := rows + [row];
        if !flow.Normal? {
          RunStays(world, calls, 0, Turns(attempts), h + 1, Turns(hopLimit));
          return;
        }
        assert flow.value == ();
        hops := hops + 1;
        h, a := h + 1, 0;
      }
      SentMeans(srcIp, dstIp, Turns(attempts), h, 0);
      if stopProbes {
        RunStays(world, calls, 0, Turns(attempts), h, Turns(hopLimit));
      }
      flow := Normal(());
    }
  }

  /** The probe at each place of a run, octet by octet: hop limit, and sequence number. */
  lemma ProbeAt(src: seq<byte>, dst: seq<byte>, attempts: nat, h: nat, a: nat, i: nat)
    requires |src| == |dst| == 16 && 0 < attempts && a <= attempts && i < |Probes(src, dst, attempts, h, a)|
    ensures var p := Probes(src, dst, attempts, h, a)[i];
            && |p| == 48 && p[7] == (i / attempts + 1) % 256
            && p[46] == i / 256 % 256 && p[47] == i % 256
  {
    hide Probe, Probes, Position, Earlier;
    var hop, attempt := DivMod(i, attempts);
    ProbesCounted(src, dst, attempts, h, a);
    PositionIs(attempts, hop, attempt);
    PositionIs(attempts, h, a);
    BeforeEnd(attempts, hop, attempt, h, a);
    ProbesNumbered(src, dst, attempts, h, a, hop, attempt);
    ProbeFields(src, dst, hop + 1, i % 0x1_0000);
    SequenceOctets(Probe(src, dst, hop + 1, i % 0x1_0000), i);
  }

  lemma PositionIs(attempts: nat, h: nat, a: nat)
    ensures Position(attempts, h, a) == h * attempts + a
  {
  }

  lemma BeforeEnd(attempts: nat, i: nat, j: nat, h: nat, a: nat)
    requires j < attempts && i * attempts + j < h * attempts + a && a <= attempts
    ensures Earlier(i, j, h, a)
  {
    if i > h {
      HopsAfter(attempts, i, h);
    }
  }

  lemma HopsAfter(attempts: nat, i: nat, h: nat)
    requires i > h
    ensures i * attempts >= h * attempts + attempts
  {
    assert i * attempts >= (h + 1) * attempts == h * attempts + attempts;
  }

  lemma DivMod(i: nat, attempts: nat) returns (hop: nat, attempt: nat)
    requires attempts > 0
    ensures attempt < attempts && i == hop * attempts + attempt && hop == i / attempts
  {
    hop, attempt := i / attempts, i % attempts;
  }

  lemma SequenceOctets(p: seq<byte>, i: nat)
    requires |p| == PROBE_LENGTH && SequenceOf(p) == i % 0x1_0000
    ensures p[46] == i / 256 % 256 && p[47] == i % 256
  {
    TwoOctets(i, i / 0x1_0000, p[46] as int, p[47] as int);
  }

  lemma TwoOctets(i: nat, rest: nat, high: nat, low: nat)
    requires i == 0x1_0000 * rest + 256 * high + low && high < 256 && low < 256
    ensures i / 256 % 256 == high && i % 256 == low
  {
    assert i / 256 == 256 * rest + high;
  }

  lemma TurnsOf(attempts: int)
    ensures attempts <= 0 ==> Turns(attempts) == 0
    ensures attempts > 0 ==> Turns(attempts) == attempts
  {
  }

  lemma NoProbes(src: seq<byte>, dst: seq<byte>, attempts: nat)
    ensures Probes(src, dst, attempts, 0, 0) == [] && Position(attempts, 0, 0) == 0
  {
    PositionStep(attempts, 0, 0, 0);
  }

  lemma HostAppended(row: seq<Cell>, cell: Cell)
    ensures HasHost(row + [cell]) <==> HasHost(row) || cell.Host?
  {
    if HasHost(row) {
      var i :| 0 <= i < |row| && row[i].Host?;
      assert (row + [cell])[i].Host?;
    }
    if cell.Host? {
      assert (row + [cell])[|row|].Host?;
    }
  }

  lemma NextHop(src: seq<byte>, dst: seq<byte>, attempts: nat, hops: nat)
    requires hops > 0
    ensures Probes(src, dst, attempts, hops - 1, attempts) == Probes(src, dst, attempts, hops, 0)
  {
  }
}

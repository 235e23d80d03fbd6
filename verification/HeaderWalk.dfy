/**
 The walk over IPv6 extension headers (RFC 8200, sections 4.3, 4.4 and 4.6) in search of
 an ICMPv6 message.
 */
module HeaderWalk {
  import opened Bytes
  import opened Checksum

  const FIRST_NEXT_HEADER := 6
  const IPV6_HEADER := 40

  /** Hop-by-hop options, routing and destination options. */
  predicate IsExtension(header: byte) {
    header == 0 || header == 43 || header == 60
  }

  // ---- The walk -----------------------------------------------------------------------------

  /** The walk stops at a next-header field, with the distance to the header it announces. */
  datatype WalkEnd = At(pos: int, skip: int) | OutOfBounds

  datatype Option<+T> = None | Some(value: T)

  /** How far the header behind the one at `pos` is, by its length octet. */
  function SkipAt(b: seq<byte>, pos: int): int
    requires Inside(b, pos)
  {
    8 + 8 * Signed(b[pos + 1])
  }

  /** A header of which both the type and the length octet can be read. */
  predicate Inside(b: seq<byte>, pos: int) {
    0 <= pos + 1 < |b|
  }

  /** The walk from a next-header field, as far as it gets by skipping at most `n` headers. */
  function WalkFrom(b: seq<byte>, pos: int, skip: int, n: nat): (end: Option<WalkEnd>)
    ensures end.Some? && end.value.At? ==> 0 <= end.value.pos < |b| && !IsExtension(b[end.value.pos])
    decreases n
  {
    if !(0 <= pos < |b|) then Some(OutOfBounds)
    else if !IsExtension(b[pos]) then Some(At(pos, skip))
    else if n == 0 then None
    else if !Inside(b, pos + skip) then Some(OutOfBounds)
    else WalkFrom(b, pos + skip, SkipAt(b, pos + skip), n - 1)
  }

  /** The walk over a packet starts at the next-header field of the IPv6 header. */
  function WalkPacket(b: seq<byte>, n: nat): (end: Option<WalkEnd>)
    ensures end.Some? && end.value.At? ==> 0 <= end.value.pos < |b| && !IsExtension(b[end.value.pos])
  {
    WalkFrom(b, FIRST_NEXT_HEADER, IPV6_HEADER - FIRST_NEXT_HEADER, n)
  }

  /** The walk comes to an end, after however many headers. */
  ghost predicate Halts(b: seq<byte>) {
    exists n: nat :: WalkPacket(b, n).Some?
  }

  /** Where the walk ends; nowhere if it is still going after one header more than there are octets. */
  function EndOfWalk(b: seq<byte>): (end: Option<WalkEnd>)
    ensures end.Some? && end.value.At? ==> 0 <= end.value.pos < |b| && !IsExtension(b[end.value.pos])
  {
    WalkPacket(b, |b| + 1)
  }

  lemma {:induction false} MoreStepsSameEnd(b: seq<byte>, pos: int, skip: int, m: nat, n: nat)
    requires WalkFrom(b, pos, skip, m).Some? && m <= n
    ensures WalkFrom(b, pos, skip, n) == WalkFrom(b, pos, skip, m)
    decreases m
  {
    if 0 <= pos < |b| && IsExtension(b[pos]) && Inside(b, pos + skip) {
      MoreStepsSameEnd(b, pos + skip, SkipAt(b, pos + skip), m - 1, n - 1);
    }
  }

  /** Behind the IPv6 header every announced header begins at a multiple of eight. */
  lemma {:induction false} AlignedEnd(b: seq<byte>, pos: int, skip: int, n: nat)
    requires (pos + skip) % 8 == 0
    ensures var end := WalkFrom(b, pos, skip, n);
            end.Some? && end.value.At? ==> (end.value.pos + end.value.skip) % 8 == 0
    decreases n
  {
    if n > 0 && 0 <= pos < |b| && IsExtension(b[pos]) && Inside(b, pos + skip) {
      AlignedEnd(b, pos + skip, SkipAt(b, pos + skip), n - 1);
    }
  }

  // ---- When the walk comes to an end --------------------------------------------------------

  /** Behind the IPv6 header the position alone decides how the walk goes on. */
  function WalkOn(b: seq<byte>, pos: int, n: nat): Option<WalkEnd>
    requires Inside(b, pos)
  {
    WalkFrom(b, pos, SkipAt(b, pos), n)
  }

  /** Positions from which the walk does not end within `n` headers. */
  ghost predicate Lasting(b: seq<byte>, seen: set<int>, n: nat) {
    forall p :: p in seen ==> Inside(b, p) && WalkOn(b, p, n).None?
  }

  lemma LastingLess(b: seq<byte>, seen: set<int>, n: nat)
    requires n > 0 && Lasting(b, seen, n)
    ensures Lasting(b, seen, n - 1)
  {
    forall p | p in seen
      ensures WalkOn(b, p, n - 1).None?
    {
      if WalkOn(b, p, n - 1).Some? {
        MoreStepsSameEnd(b, p, SkipAt(b, p), n - 1, n);
      }
    }
  }

  lemma LastingFits(b: seq<byte>, seen: set<int>, n: nat)
    requires Lasting(b, seen, n)
    ensures |seen| <= |b|
  {
    FewInside(seen, |b|);
  }

  lemma {:induction false} FewInside(positions: set<int>, n: nat)
    requires forall p :: p in positions ==> 0 <= p + 1 < n
    ensures |positions| <= n
    decreases n
  {
    if p :| p in positions {
      FewInside(positions - {n - 2}, n - 1);
    } else {
      assert positions == {};
    }
  }

  /** A walk that ends never comes back to a position, so it ends within those not yet seen. */
  lemma {:induction false} EndsWithinTheRest(b: seq<byte>, pos: int, n: nat, seen: set<int>)
    requires Inside(b, pos) && WalkOn(b, pos, n).Some? && Lasting(b, seen, n)
    ensures |seen| <= |b| && WalkOn(b, pos, |b| - |seen|).Some?
    decreases n
  {
    LastingFits(b, seen, n);
    if n == 0 {
      MoreStepsSameEnd(b, pos, SkipAt(b, pos), 0, |b| - |seen|);
    } else {
      LastingLess(b, seen, n);
      if WalkOn(b, pos, n - 1).Some? {
        EndsWithinTheRest(b, pos, n - 1, seen);
      } else {
        var visited := seen + {pos};
        LastingFits(b, visited, n - 1);
        var next := pos + SkipAt(b, pos);
        if Inside(b, next) {
          EndsWithinTheRest(b, next, n - 1, visited);
        }
      }
    }
  }

  /**
   The exact extent: the walk comes to an end if and only if it does so within one header
   more than the packet has octets; otherwise it goes round for ever.
   */
  lemma HaltsIff(b: seq<byte>)
    ensures Halts(b) <==> EndOfWalk(b).Some?
    ensures forall n: nat :: WalkPacket(b, n).Some? ==> EndOfWalk(b) == WalkPacket(b, n)
  {
    forall n: nat | WalkPacket(b, n).Some?
      ensures EndOfWalk(b) == WalkPacket(b, n)
    {
      EndOfWalkIs(b, n);
    }
  }

  lemma EndOfWalkIs(b: seq<byte>, n: nat)
    requires WalkPacket(b, n).Some?
    ensures EndOfWalk(b) == WalkPacket(b, n)
  {
    var pos, skip := FIRST_NEXT_HEADER, IPV6_HEADER - FIRST_NEXT_HEADER;
    if n <= |b| + 1 {
      MoreStepsSameEnd(b, pos, skip, n, |b| + 1);
    } else {
      if |b| > pos && IsExtension(b[pos]) && Inside(b, IPV6_HEADER) {
        EndsWithinTheRest(b, IPV6_HEADER, n - 1, {});
      }
      MoreStepsSameEnd(b, pos, skip, |b| + 1, n);
    }
  }

  /**
   The loop over the headers. Where the program's loop would never end, this one notices
   that it has skipped more headers than there are octets, and says so.
   */
  method Walk(buffer: array<byte>) returns (end: Option<WalkEnd>)
    ensures end == EndOfWalk(buffer[..])
  {
    ghost var b := buffer[..];
    var pos := FIRST_NEXT_HEADER;
    var skip := IPV6_HEADER - FIRST_NEXT_HEADER;
    var turns := 0;
    while 0 <= pos < buffer.Length && IsExtension(buffer[pos])
      invariant turns <= buffer.Length + 1
      invariant WalkFrom(b, pos, skip, buffer.Length + 1 - turns) == EndOfWalk(b)
      decreases buffer.Length + 1 - turns
    {
      if turns > buffer.Length {
        return None;
      }
      turns := turns + 1;
      pos := pos + skip;
      if !(0 <= pos + 1 < buffer.Length) {
        return Some(OutOfBounds);
      }
      skip := 8 + 8 * Signed(buffer[pos + 1]);
    }
    end := Some(if 0 <= pos < buffer.Length then At(pos, skip) else OutOfBounds);
  }

  // ---- When the walk moves forward ----------------------------------------------------------

  /** None of the first `n` headers the walk skips has a length octet that reads as negative. */
  predicate Forward(b: seq<byte>, pos: int, skip: int, n: nat)
    decreases n
  {
    (n > 0 && 0 <= pos < |b| && IsExtension(b[pos]) && Inside(b, pos + skip)) ==>
      && b[pos + skip + 1] < 0x80
      && Forward(b, pos + skip, SkipAt(b, pos + skip), n - 1)
  }

  predicate MovesForward(b: seq<byte>) {
    Forward(b, FIRST_NEXT_HEADER, IPV6_HEADER - FIRST_NEXT_HEADER, |b|)
  }

  /** A walk that moves forward leaves the packet or stops before it has skipped |b| headers. */
  lemma {:induction false} ForwardHalts(b: seq<byte>, pos: int, skip: int, n: nat)
    requires 0 <= pos && skip >= 8 && n >= |b| - pos
    requires Forward(b, pos, skip, n)
    ensures var end := WalkFrom(b, pos, skip, n);
            && end.Some?
            && (end.value.At? ==> end.value == At(pos, skip)
                                  || (end.value.pos >= pos + skip && end.value.skip >= 8))
    decreases n
  {
    if 0 <= pos < |b| && IsExtension(b[pos]) && Inside(b, pos + skip) {
      ForwardHalts(b, pos + skip, SkipAt(b, pos + skip), n - 1);
    }
  }

  /** Then it ends behind the IPv6 header, unless it never left it. */
  lemma MovesForwardHalts(b: seq<byte>)
    requires MovesForward(b)
    ensures Halts(b)
    ensures var end := EndOfWalk(b);
            && end.Some?
            && (end.value.At? ==>
                  if IsExtension(b[FIRST_NEXT_HEADER]) then
                    end.value.pos >= IPV6_HEADER && end.value.skip >= 8
                  else
                    end.value == At(FIRST_NEXT_HEADER, IPV6_HEADER - FIRST_NEXT_HEADER))
  {
    if |b| > FIRST_NEXT_HEADER && IsExtension(b[FIRST_NEXT_HEADER]) && IPV6_HEADER + 1 < |b| {
      ForwardHalts(b, IPV6_HEADER, 8 + 8 * Signed(b[IPV6_HEADER + 1]), |b| - 1);
    }
    EndOfWalkIs(b, |b|);
  }

  /** One way round: a length octet of 255 makes the walk stand still for ever. */
  lemma WalkMayStandStill(b: seq<byte>)
    requires |b| > IPV6_HEADER + 1
    requires IsExtension(b[FIRST_NEXT_HEADER]) && IsExtension(b[IPV6_HEADER]) && b[IPV6_HEADER + 1] == 0xFF
    ensures !Halts(b) && !MovesForward(b)
  {
    forall n: nat
      ensures WalkPacket(b, n).None?
    {
      if n > 0 {
        StandStill(b, n - 1);
      }
    }
  }

  lemma {:induction false} StandStill(b: seq<byte>, n: nat)
    requires |b| > IPV6_HEADER + 1 && IsExtension(b[IPV6_HEADER]) && b[IPV6_HEADER + 1] == 0xFF
    ensures WalkFrom(b, IPV6_HEADER, 0, n).None?
  {
    if n > 0 {
      StandStill(b, n - 1);
    }
  }

  // ---- Chains of headers --------------------------------------------------------------------

  /** An extension header: its type, its Hdr Ext Len, and everything behind these two octets. */
  datatype Extension = Extension(kind: byte, length: byte, body: seq<byte>) {
    predicate Valid() {
      IsExtension(kind) && length < 0x80 && 2 + |body| == Size()
    }

    function Size(): nat {
      8 + 8 * length
    }

    /** The header in front of one of type `next`. */
    function Octets(next: byte): seq<byte> {
      [next, length] + body
    }
  }

  predicate ValidChain(chain: seq<Extension>) {
    forall e :: e in chain ==> e.Valid()
  }

  /** The type that the header before a chain announces. */
  function Announced(chain: seq<Extension>): byte {
    if chain == [] then NEXT_HEADER_ICMPV6 else chain[0].kind
  }

  function EncodeChain(chain: seq<Extension>): seq<byte> {
    if chain == [] then []
    else chain[0].Octets(Announced(chain[1..])) + EncodeChain(chain[1..])
  }

  function ChainLength(chain: seq<Extension>): nat {
    if chain == [] then 0 else chain[0].Size() + ChainLength(chain[1..])
  }

  lemma {:induction false} EncodedLength(chain: seq<Extension>)
    requires ValidChain(chain)
    ensures |EncodeChain(chain)| == ChainLength(chain)
  {
    if chain != [] {
      assert chain[0] in chain;
      EncodedLength(chain[1..]);
    }
  }

  /** A packet whose first octets are those of `front`, then a chain of headers, then a message. */
  function ChainPacket(front: seq<byte>, chain: seq<Extension>, message: seq<byte>): seq<byte>
    requires |front| == IPV6_HEADER
  {
    front[FIRST_NEXT_HEADER := Announced(chain)] + EncodeChain(chain) + message
  }

  /** What stands at the front of an encoded chain, and what follows its first header. */
  lemma FirstOfChain(chain: seq<Extension>, message: seq<byte>, encoded: seq<byte>)
    requires chain != [] && chain[0].Valid()
    requires encoded == EncodeChain(chain) + message
    ensures var next := chain[0].Size();
            && next <= |encoded|
            && encoded[0] == Announced(chain[1..]) && encoded[1] == chain[0].length
            && encoded[next..] == EncodeChain(chain[1..]) + message
  {
    SplitFront(chain[0].Octets(Announced(chain[1..])), EncodeChain(chain[1..]), message);
  }

  lemma SplitFront(front: seq<byte>, middle: seq<byte>, back: seq<byte>)
    ensures (front + middle + back)[|front|..] == middle + back
    ensures forall i :: 0 <= i < |front| ==> (front + middle + back)[i] == front[i]
  {
  }

  lemma {:induction false} WalkOverChain(b: seq<byte>, pos: nat, skip: nat, chain: seq<Extension>, message: seq<byte>)
    requires ValidChain(chain)
    requires pos < pos + skip <= |b|
    requires b[pos] == Announced(chain) && b[pos + skip..] == EncodeChain(chain) + message
    ensures var end := WalkFrom(b, pos, skip, |chain|);
            && end.Some? && end.value.At?
            && 0 <= end.value.pos < |b| && b[end.value.pos] == NEXT_HEADER_ICMPV6
            && end.value.pos + end.value.skip == pos + skip + ChainLength(chain)
    decreases |chain|
  {
    if chain != [] {
      assert chain[0] in chain;
      var encoded, next := b[pos + skip..], chain[0].Size();
      FirstOfChain(chain, message, encoded);
      assert b[pos + skip + next..] == encoded[next..];
      assert next == 8 + 8 * Signed(b[pos + skip + 1]);
      WalkOverChain(b, pos + skip, next, chain[1..], message);
    }
  }

  /** A packet that announces none of the three kinds of header is not walked over at all. */
  lemma NoHeader(b: seq<byte>)
    requires |b| > 6 && b[6] != 0 && b[6] != 43 && b[6] != 60
    ensures EndOfWalk(b) == Some(At(6, 34))
  {
  }

  /** The distance over a single header of any of the kinds, for every length octet. */
  lemma OneHeader(b: seq<byte>)
    requires |b| > 41 && (b[6] == 0 || b[6] == 43 || b[6] == 60)
    requires b[40] != 0 && b[40] != 43 && b[40] != 60
    ensures EndOfWalk(b) == Some(At(40, if b[41] < 128 then 8 * (b[41] as int) + 8 else 8 * (b[41] as int) - 2040))
  {
    assert EndOfWalk(b) == WalkFrom(b, 40, SkipAt(b, 40), |b|);
  }

  /** Over a chain of headers of these kinds, each 8 + 8 * length octets long, to the message behind them. */
  lemma WalkFindsMessageBehind(front: seq<byte>, chain: seq<Extension>, message: seq<byte>)
    requires |front| == 40
    requires forall e :: e in chain ==> e.kind == 0 || e.kind == 43 || e.kind == 60
    requires forall e :: e in chain ==> e.length <= 127 && |e.body| == 6 + 8 * e.length as nat
    ensures var b := ChainPacket(front, chain, message);
            && b[..6] == front[..6] && b[7..40] == front[7..] && b[6] == (if chain == [] then 58 else chain[0].kind)
            && EndOfWalk(b).Some? && EndOfWalk(b).value.At?
            && var end := EndOfWalk(b).value;
            b[end.pos] == 58 && 0 <= end.pos + end.skip <= |b| && b[end.pos + end.skip..] == message
  {
    assert ValidChain(chain);
    WalkFindsMessage(front, chain, message);
    FrontOfPacket(front, Announced(chain), EncodeChain(chain), message);
  }

  lemma FrontOfPacket(front: seq<byte>, kind: byte, headers: seq<byte>, message: seq<byte>)
    requires |front| == 40
    ensures var b := front[6 := kind] + headers + message;
            b[..6] == front[..6] && b[6] == kind && b[7..40] == front[7..]
  {
  }

  /** The walk inverts the encoding of a chain: it finds the message that follows it. */
  lemma WalkFindsMessage(front: seq<byte>, chain: seq<Extension>, message: seq<byte>)
    requires |front| == IPV6_HEADER && ValidChain(chain)
    ensures var b := ChainPacket(front, chain, message);
            && EndOfWalk(b).Some? && EndOfWalk(b).value.At?
            && var end := EndOfWalk(b).value;
            && b[end.pos] == NEXT_HEADER_ICMPV6 && end.pos + end.skip == IPV6_HEADER + ChainLength(chain)
            && |b| == IPV6_HEADER + ChainLength(chain) + |message|
            && b[IPV6_HEADER + ChainLength(chain)..] == message
  {
    var b := ChainPacket(front, chain, message);
    EncodedLength(chain);
    assert b[IPV6_HEADER..] == EncodeChain(chain) + message;
    WalkOverChain(b, FIRST_NEXT_HEADER, IPV6_HEADER - FIRST_NEXT_HEADER, chain, message);
    EndOfWalkIs(b, |chain|);
  }
}

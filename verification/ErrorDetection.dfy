/** What the ICMPv6 checksum detects, what it is blind to, and how a receiver may verify it. */
module ErrorDetection {
  import opened Bytes
  import opened OnesComplement
  import opened Checksum

  lemma {:induction false} TotalOfUpdate(ws: seq<word>, k: nat, w: word)
    requires k < |ws|
    ensures Total(ws[k := w]) == Total(ws) - ws[k] + w
  {
    if k > 0 {
      assert ws[k := w][1..] == ws[1..][k - 1 := w];
      TotalOfUpdate(ws[1..], k - 1, w);
    } else {
      assert ws[k := w][1..] == ws[1..];
    }
  }

  /** Two payloads that agree outside the aligned word `k`. */
  predicate DifferInOneWord(p: seq<byte>, q: seq<byte>, k: nat)
  {
    && |p| == |q| && 2 * k < |p|
    && forall j :: 0 <= j < |p| && j / 2 != k ==> p[j] == q[j]
  }

  lemma TotalsOfOneWordApart(p: seq<byte>, q: seq<byte>, k: nat)
    requires DifferInOneWord(p, q, k)
    ensures Total(WordsOf(q)) == Total(WordsOf(p)) - WordAt(p, k) + WordAt(q, k)
  {
    var ws, vs := WordsOf(p), WordsOf(q);
    forall j | 0 <= j < |ws| && j != k
      ensures ws[j] == vs[j]
    {
      assert p[2 * j] == q[2 * j];
      assert 2 * j + 1 < |p| ==> p[2 * j + 1] == q[2 * j + 1];
    }
    assert vs == ws[k := WordAt(q, k)];
    TotalOfUpdate(ws, k, WordAt(q, k));
  }

  /** The two representations of zero in one's complement. */
  predicate OppositeZeros(w: word, v: word) {
    (w == 0 && v == 0xFFFF) || (w == 0xFFFF && v == 0)
  }

  /**
   Replacing one aligned word goes unnoticed exactly when the word keeps its value,
   or one of the two one's-complement zeros takes the place of the other.
   */
  lemma WordReplacementUndetectedIff(src: seq<byte>, dst: seq<byte>, p: seq<byte>, q: seq<byte>, k: nat)
    requires |src| == |dst| == 16 && |p| < TWO32
    requires DifferInOneWord(p, q, k)
    ensures RfcChecksum(src, dst, p) == RfcChecksum(src, dst, q)
            <==> WordAt(p, k) == WordAt(q, k) || OppositeZeros(WordAt(p, k), WordAt(q, k))
  {
    var w, v := WordAt(p, k), WordAt(q, k);
    CoveredTotal(src, dst, p);
    CoveredTotal(src, dst, q);
    TotalsOfOneWordApart(p, q, k);
    var s := PseudoTotal(src, dst, |p|) + Total(WordsOf(p));
    CanonicalCongruent(s, s - w + v);
    OneWordCongruence(w, v);
  }

  lemma OneWordCongruence(w: word, v: word)
    ensures (w - v) % 0xFFFF == 0 <==> w == v || OppositeZeros(w, v)
  {
  }

  /** Any change of a single octet is detected: every bit flip, and every error inside one octet. */
  lemma OctetChangeDetected(src: seq<byte>, dst: seq<byte>, p: seq<byte>, i: nat, b: byte)
    requires |src| == |dst| == 16 && |p| < TWO32
    requires i < |p| && p[i] != b
    ensures RfcChecksum(src, dst, p) != RfcChecksum(src, dst, p[i := b])
  {
    hide RfcChecksum, WordAt;
    WordReplacementUndetectedIff(src, dst, p, p[i := b], i / 2);
    OctetInWord(p, i, b);
  }

  /** Changing one octet changes its word, but does not turn one zero into the other. */
  lemma OctetInWord(p: seq<byte>, i: nat, b: byte)
    requires i < |p| && p[i] != b
    ensures var w, v := WordAt(p, i / 2), WordAt(p[i := b], i / 2);
            w != v && !OppositeZeros(w, v)
  {
    if i % 2 == 0 {
      assert i == 2 * (i / 2);
    } else {
      assert i == 2 * (i / 2) + 1;
    }
  }

  lemma {:induction false} WeightedUpdate(s: seq<byte>, i: nat, b: byte)
    requires i < |s|
    ensures Weighted(s[i := b]) - Weighted(s) == (if i % 2 == 0 then 256 * (b - s[i]) else b - s[i])
  {
    var t := s[i := b];
    if i >= 2 {
      assert t[2..] == s[2..][i - 2 := b];
      WeightedUpdate(s[2..], i - 2, b);
    } else if |s| > 1 {
      assert t[2..] == s[2..];
    }
  }

  /** Any change of a single octet of either address is detected. */
  lemma AddressChangeDetected(src: seq<byte>, dst: seq<byte>, p: seq<byte>, i: nat, b: byte)
    requires |src| == |dst| == 16 && |p| < TWO32 && i < 16
    ensures src[i] != b ==> RfcChecksum(src, dst, p) != RfcChecksum(src[i := b], dst, p)
    ensures dst[i] != b ==> RfcChecksum(src, dst, p) != RfcChecksum(src, dst[i := b], p)
  {
    hide RfcChecksum, Weighted;
    var v := RfcChecksum(src, dst, p);
    ChecksumIff(src, dst, p, v);
    ChecksumIff(src[i := b], dst, p, v);
    ChecksumIff(src, dst[i := b], p, v);
    WeightedUpdate(src, i, b);
    WeightedUpdate(dst, i, b);
    var total := v + PlainTotal(src, dst, |p|, p);
    if src[i] != b {
      NotMultiple(total, i, src[i], b);
    }
    if dst[i] != b {
      NotMultiple(total, i, dst[i], b);
    }
  }

  lemma NotMultiple(total: int, i: nat, was: int, now: int)
    requires total % 65535 == 0 && was != now && -256 < now - was < 256
    ensures (total + (if i % 2 == 0 then 256 * (now - was) else now - was)) % 65535 != 0
  {
  }

  /** RFC 1071, section 2(A): any rearrangement of the aligned words keeps the checksum. */
  lemma PermutationUndetected(src: seq<byte>, dst: seq<byte>, p: seq<byte>, q: seq<byte>)
    requires |src| == |dst| == 16 && |p| == |q| < TWO32
    requires multiset(WordsOf(p)) == multiset(WordsOf(q))
    ensures RfcChecksum(src, dst, p) == RfcChecksum(src, dst, q)
  {
    TotalOfPermutation(WordsOf(p), WordsOf(q));
    CoveredTotal(src, dst, p);
    CoveredTotal(src, dst, q);
  }

  // ---- Zero, recompute, compare; or sum everything ------------------------------------------

  function ClearedField(p: seq<byte>): seq<byte>
    requires |p| >= CHECKSUM_OFFSET + 2
  {
    p[CHECKSUM_OFFSET := 0][CHECKSUM_OFFSET + 1 := 0]
  }

  function Field(p: seq<byte>): word
    requires |p| >= CHECKSUM_OFFSET + 2
  {
    Word(p[CHECKSUM_OFFSET], p[CHECKSUM_OFFSET + 1])
  }

  /**
   Clearing the field and recomputing accepts exactly the messages that the rule of
   RFC 1071 accepts and whose field is not 0xFFFF, the second zero of one's complement.
   */
  lemma RecomputeAcceptsIff(src: seq<byte>, dst: seq<byte>, p: seq<byte>)
    requires |src| == |dst| == 16 && CHECKSUM_OFFSET + 2 <= |p| < TWO32
    ensures RfcChecksum(src, dst, ClearedField(p)) == Field(p)
            <==> SumsToAllOnes(src, dst, p) && Field(p) != 0xFFFF
  {
    hide Canonical, Total, OnesSum, PseudoTotal, Covered;
    var q := ClearedField(p);
    CoveredTotal(src, dst, p);
    CoveredTotal(src, dst, q);
    TotalsOfOneWordApart(p, q, 1);
    assert WordAt(p, 1) == Field(p) && WordAt(q, 1) == 0;
    FieldCompletes(PseudoTotal(src, dst, |q|) + Total(WordsOf(q)), Field(p));
  }

  lemma FieldCompletes(s: nat, f: word)
    requires s > 0
    ensures 0xFFFF - Canonical(s) == f <==> Canonical(s + f) == 0xFFFF && f != 0xFFFF
  {
    var c := Canonical(s);
    var k := CanonicalQuotient(s);
    if c + f <= 0xFFFF {
      CanonicalUnique(s + f, c + f, k);
    } else {
      CanonicalUnique(s + f, c + f - 0xFFFF, k + 1);
    }
  }

  /** Putting the checksum of a cleared message into its field makes both rules accept. */
  lemma FilledInIsAccepted(src: seq<byte>, dst: seq<byte>, p: seq<byte>, sent: seq<byte>)
    requires |src| == |dst| == 16 && CHECKSUM_OFFSET + 2 <= |p| < TWO32
    requires |sent| == |p| && p == ClearedField(sent) && Field(sent) == RfcChecksum(src, dst, p)
    ensures SumsToAllOnes(src, dst, sent) && Field(sent) != 0xFFFF
  {
    RecomputeAcceptsIff(src, dst, sent);
  }
}

/** One's-complement arithmetic on 16-bit words (RFC 1071, sections 1 and 2). */
module OnesComplement {
  import opened Bytes
  import opened Sequences

  /** The adder of RFC 1071, section 1: a carry out of bit 15 is added back at bit 0. */
  function EndAroundAdd(a: word, b: word): word {
    if a + b > 0xFFFF then a + b - 0xFFFF else a + b
  }

  /** The one's-complement sum of a sequence of words. */
  function OnesSum(ws: seq<word>): word {
    if ws == [] then 0 else EndAroundAdd(ws[0], OnesSum(ws[1..]))
  }

  /** The ordinary sum of a sequence of words. */
  function Total(ws: seq<word>): nat {
    if ws == [] then 0 else ws[0] + Total(ws[1..])
  }

  /** The representative of `sum` modulo 65535 in 0..65535 that is 0 for the sum 0 only. */
  function Canonical(sum: nat): word {
    if sum <= 0xFFFF then sum else Canonical(sum - 0xFFFF)
  }

  // ---- Canonical representatives ------------------------------------------------------------

  /** A word is the canonical representative of every positive sum congruent to it. */
  lemma {:induction false} CanonicalUnique(sum: nat, w: word, k: int)
    requires sum == w + 0xFFFF * k
    requires sum == 0 <==> w == 0
    ensures Canonical(sum) == w
    decreases sum
  {
    if sum > 0xFFFF {
      CanonicalUnique(sum - 0xFFFF, w, k - 1);
    }
  }

  /** Every sum is its canonical representative plus a multiple of 65535. */
  lemma {:induction false} CanonicalQuotient(sum: nat) returns (k: nat)
    ensures sum == Canonical(sum) + 0xFFFF * k
    ensures sum == 0 <==> Canonical(sum) == 0
  {
    if sum <= 0xFFFF {
      k := 0;
    } else {
      k := CanonicalQuotient(sum - 0xFFFF);
      k := k + 1;
    }
  }

  /** Positive sums share their representative exactly when they differ by a multiple of 65535. */
  lemma CanonicalCongruent(s: nat, t: nat)
    requires s > 0 && t > 0
    ensures Canonical(s) == Canonical(t) <==> (s - t) % 0xFFFF == 0
  {
    var j := CanonicalQuotient(s);
    var k := CanonicalQuotient(t);
    if (s - t) % 0xFFFF == 0 {
      var d := (s - t) / 0xFFFF;
      assert s == Canonical(t) + 0xFFFF * (k + d);
      CanonicalUnique(s, Canonical(t), k + d);
    } else if Canonical(s) == Canonical(t) {
      assert false;
    }
  }

  /** Folding `s` once moves its upper half down without changing its class. */
  lemma CanonicalFold(s: nat)
    ensures Canonical(s / 0x1_0000 + s % 0x1_0000) == Canonical(s)
  {
    var k := CanonicalQuotient(s);
    var q := s / 0x1_0000;
    var folded := q + s % 0x1_0000;
    assert folded == s - 0xFFFF * q;
    CanonicalUnique(folded, Canonical(s), k - q);
  }

  /** Deferred carries: adding with end-around carry, and reducing the plain total, agree. */
  lemma {:induction false} OnesSumIsCanonicalTotal(ws: seq<word>)
    ensures OnesSum(ws) == Canonical(Total(ws))
  {
    if ws == [] {
    } else {
      OnesSumIsCanonicalTotal(ws[1..]);
      var k := CanonicalQuotient(Total(ws[1..]));
      CanonicalUnique(Total(ws), OnesSum(ws), if ws[0] + OnesSum(ws[1..]) > 0xFFFF then k + 1 else k);
    }
  }

  // ---- The carry loop -----------------------------------------------------------------------

  /** How often the carry loop runs on `s`. */
  function FoldRounds(s: nat): nat
    decreases s
  {
    if s < 0x1_0000 then 0 else 1 + FoldRounds(s / 0x1_0000 + s % 0x1_0000)
  }

  /**
   The carry loop: it leaves the canonical representative of any sum, after at most
   two rounds for sums below 2^32 and at most three for every sum a payload shorter
   than 2^32 octets can produce.
   */
  method CarryFold(s: nat) returns (sum: word, rounds: nat)
    ensures sum == Canonical(s)
    ensures rounds == FoldRounds(s)
  {
    var acc := s;
    rounds := 0;
    while acc / 0x1_0000 != 0
      invariant 0 <= acc
      invariant Canonical(acc) == Canonical(s)
      invariant rounds + FoldRounds(acc) == FoldRounds(s)
      decreases acc
    {
      CanonicalFold(acc);
      acc := acc / 0x1_0000 + acc % 0x1_0000;
      rounds := rounds + 1;
    }
    sum := acc;
  }

  /** The number of rounds is 0, at most 2, at most 3 according to the width of the sum. */
  lemma FoldRoundsBound(s: nat)
    ensures FoldRounds(s) == 0 <==> s < 0x1_0000
    ensures s < 0x1_0000_0000 ==> FoldRounds(s) <= 2
    ensures s < 0x8000_0000_0000 ==> FoldRounds(s) <= 3
  {
    var s1 := s / 0x1_0000 + s % 0x1_0000;
    var s2 := s1 / 0x1_0000 + s1 % 0x1_0000;
    var s3 := s2 / 0x1_0000 + s2 % 0x1_0000;
    if 0x1_0000 <= s < 0x8000_0000_0000 {
      assert s1 < 0x8001_0000;
      assert FoldRounds(s) == 1 + FoldRounds(s1);
      if s1 >= 0x1_0000 {
        assert FoldRounds(s1) == 1 + FoldRounds(s2);
        assert s < 0x1_0000_0000 ==> s2 < 0x1_0000;
        if s2 >= 0x1_0000 {
          assert FoldRounds(s2) == 1 + FoldRounds(s3);
          assert s3 < 0x1_0000;
        }
      }
    }
  }

  // ---- Order does not matter ----------------------------------------------------------------

  lemma {:induction false} TotalConcat(a: seq<word>, b: seq<word>)
    ensures Total(a + b) == Total(a) + Total(b)
  {
    if a == [] {
      assert a + b == b;
    } else {
      assert (a + b)[1..] == a[1..] + b;
      TotalConcat(a[1..], b);
    }
  }

  lemma {:induction false} TotalWithout(ws: seq<word>, i: nat)
    requires i < |ws|
    ensures Total(ws) == ws[i] + Total(Without(ws, i))
  {
    if i == 0 {
      assert Without(ws, 0) == ws[1..];
    } else {
      assert Without(ws, i)[1..] == Without(ws[1..], i - 1);
      TotalWithout(ws[1..], i - 1);
    }
  }

  /** RFC 1071, section 2(A): the sum depends on the words, not on their order. */
  lemma {:induction false} TotalOfPermutation(a: seq<word>, b: seq<word>)
    requires multiset(a) == multiset(b)
    ensures Total(a) == Total(b)
    decreases |a|
  {
    if a == [] {
      assert |multiset(b)| == 0;
    } else {
      assert a[0] in multiset(b);
      var i :| 0 <= i < |b| && b[i] == a[0];
      MultisetWithout(a, 0);
      MultisetWithout(b, i);
      assert multiset(Without(a, 0)) == multiset(a) - multiset{a[0]} == multiset(Without(b, i));
      TotalOfPermutation(Without(a, 0), Without(b, i));
      TotalWithout(a, 0);
      TotalWithout(b, i);
    }
  }
}

/** Decimal numbers as the C library prints and parses them. */
module Decimal {

  function DigitChar(d: nat): (c: char)
    requires d < 10
    ensures '0' <= c <= '9'
  {
    '0' + d as char
  }

  predicate IsDigit(c: char) {
    '0' <= c <= '9'
  }

  function DigitValue(c: char): (d: nat)
    requires IsDigit(c)
    ensures d < 10
  {
    (c - '0') as int
  }

  /** What `%d` and `%ld` print for a number that is not negative. */
  function Print(n: nat): (t: string)
    ensures t != []
    decreases n
  {
    if n < 10 then [DigitChar(n)] else Print(n / 10) + [DigitChar(n % 10)]
  }

  /** The value of a string of digits. */
  function Value(t: string): nat
    requires forall c :: c in t ==> IsDigit(c)
  {
    if t == "" then 0 else 10 * Value(t[..|t| - 1]) + DigitValue(t[|t| - 1])
  }

  /** The number of digits at the front of a text. */
  function LeadingDigits(t: string): (k: nat)
    ensures k <= |t|
    ensures forall i :: 0 <= i < k ==> IsDigit(t[i])
    ensures k < |t| ==> !IsDigit(t[k])
  {
    if t == "" || !IsDigit(t[0]) then 0 else 1 + LeadingDigits(t[1..])
  }

  predicate IsSpace(c: char) {
    c == ' ' || '\t' <= c <= '\r'
  }

  /** `atol`: white space, an optional sign, and as many digits as there are. */
  function Atol(t: string): int {
    if t != "" && IsSpace(t[0]) then Atol(t[1..])
    else if t != "" && t[0] == '-' then 0 - (Unsigned(t[1..]) as int)
    else if t != "" && t[0] == '+' then Unsigned(t[1..])
    else Unsigned(t)
  }

  function Unsigned(t: string): nat {
    DigitsOnly(t, LeadingDigits(t));
    Value(t[..LeadingDigits(t)])
  }

  lemma DigitsOnly(t: string, k: nat)
    requires k <= |t| && forall i :: 0 <= i < k ==> IsDigit(t[i])
    ensures forall c :: c in t[..k] ==> IsDigit(c)
  {
  }

  /** A printed number is digits only, without a leading zero unless it is zero. */
  lemma {:induction false} PrintShape(n: nat)
    ensures forall c :: c in Print(n) ==> IsDigit(c)
    ensures n > 0 ==> Print(n)[0] != '0'
    decreases n
  {
    if n >= 10 {
      PrintShape(n / 10);
    }
  }

  lemma {:induction false} ValueOfPrint(n: nat)
    ensures forall c :: c in Print(n) ==> IsDigit(c)
    ensures Value(Print(n)) == n
    decreases n
  {
    PrintShape(n);
    if n >= 10 {
      ValueOfPrint(n / 10);
      assert Print(n)[..|Print(n)| - 1] == Print(n / 10);
    }
  }

  lemma {:induction false} AllLeading(t: string)
    requires forall c :: c in t ==> IsDigit(c)
    ensures LeadingDigits(t) == |t|
  {
    if t != "" {
      assert t[0] in t;
      AllLeading(t[1..]);
    }
  }

  lemma PrintLonger(n: nat)
    ensures |Print(n)| == if n < 10 then 1 else |Print(n / 10)| + 1
  {
  }

  /** The number a string of characters stands for, by the codes of the characters. */
  function ReadDecimal(t: string): int {
    if t == "" then 0 else 10 * ReadDecimal(t[..|t| - 1]) + (t[|t| - 1] as int - 48)
  }

  lemma {:induction false} ValueReads(t: string)
    requires forall c :: c in t ==> IsDigit(c)
    ensures forall i :: 0 <= i < |t| ==> 48 <= t[i] as int <= 57
    ensures Value(t) == ReadDecimal(t)
  {
    if t != "" {
      assert t[|t| - 1] in t;
      ValueReads(t[..|t| - 1]);
    }
  }

  /** A printed number is digits only, reads as the number, and has no zero in front. */
  lemma PrintReads(n: nat)
    ensures ReadDecimal(Print(n)) == n
    ensures forall i :: 0 <= i < |Print(n)| ==> 48 <= Print(n)[i] as int <= 57
    ensures Print(n)[0] as int == 48 ==> n == 0 && |Print(n)| == 1
  {
    hide Print, Value;
    PrintShape(n);
    ValueOfPrint(n);
    ValueReads(Print(n));
    if n == 0 {
      PrintLonger(0);
    }
  }

  /** Parsing what was printed gives the number back. */
  lemma AtolOfPrint(n: nat)
    ensures Atol(Print(n)) == n
  {
    PrintShape(n);
    ValueOfPrint(n);
    AllLeading(Print(n));
    assert Print(n)[0] in Print(n);
    assert Print(n)[..|Print(n)|] == Print(n);
  }

  /** Taking the last digit off a string of digits. */
  lemma ValueStep(t: string)
    requires t != "" && forall c :: c in t ==> IsDigit(c)
    ensures IsDigit(t[|t| - 1]) && forall c :: c in t[..|t| - 1] ==> IsDigit(c)
    ensures Value(t) == 10 * Value(t[..|t| - 1]) + DigitValue(t[|t| - 1])
  {
  }

  lemma PrintStep(tens: nat, c: char)
    requires IsDigit(c)
    ensures tens > 0 ==> Print(10 * tens + DigitValue(c)) == Print(tens) + [c]
    ensures Print(DigitValue(c)) == [c]
  {
    var n := 10 * tens + DigitValue(c);
    assert n / 10 == tens && n % 10 == DigitValue(c);
    assert DigitChar(DigitValue(c)) == c;
  }

  /** A string of digits without a leading zero is the print of its value. */
  lemma {:induction false} PrintOfValue(t: string)
    requires t != "" && t[0] != '0' && forall c :: c in t ==> IsDigit(c)
    ensures Value(t) > 0 && Print(Value(t)) == t
  {
    hide Print, Value;
    var last := |t| - 1;
    ValueStep(t);
    assert t == t[..last] + [t[last]];
    if last > 0 {
      PrintOfValue(t[..last]);
      PrintStep(Value(t[..last]), t[last]);
    } else {
      NoDigits();
      PrintStep(0, t[last]);
    }
  }

  lemma NoDigits()
    ensures Value("") == 0
  {
  }

  /** The loop that counts digits, for every number: the length of its print. */
  method CountDigits(c: nat) returns (digits: nat)
    ensures digits == |Print(c)|
  {
    digits := 1;
    var n: nat := c / 10;
    while n != 0
      invariant digits + (if n == 0 then 0 else |Print(n)|) == |Print(c)|
      decreases n
    {
      digits := digits + 1;
      n := n / 10;
    }
  }

  lemma PrintLength(n: nat)
    ensures n < 10 ==> |Print(n)| == 1
    ensures n < 10000 ==> |Print(n)| <= 4
    ensures n >= 1000 ==> |Print(n)| >= 4
  {
    hide Print;
    PrintLonger(n);
    PrintLonger(n / 10);
    PrintLonger(n / 10 / 10);
    PrintLonger(n / 10 / 10 / 10);
  }
}

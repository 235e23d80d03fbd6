/** The bounded hex dump of libraw: sixteen octets a line, written into one static buffer. */
module HexDump {
  import opened Bytes
  import opened CStrings

  const CAPACITY := 65536
  const RESERVE := 64

  // ---- The text -----------------------------------------------------------------------------

  function Digit(n: nat): char
    requires n < 16
  {
    "0123456789abcdef"[n]
  }

  /** Hexadecimal with at least `width` digits. */
  function Hex(n: nat, width: nat): (t: string)
    ensures |t| >= width
    decreases n, width
  {
    if n == 0 && width == 0 then ""
    else Hex(n / 16, if width == 0 then 0 else width - 1) + [Digit(n % 16)]
  }

  /** A gap precedes every octet at a multiple of 8 but the first. */
  function Gap(i: nat): string {
    if i % 8 == 0 && i != 0 then "  " else ""
  }

  /** A label opens the line of every octet at a multiple of 16. */
  function Label(i: nat): string {
    if i == 0 then ">> " + Hex(i, 4) + ":  "
    else if i % 16 == 0 then "\n" + (">> " + Hex(i, 4) + ":  ")
    else ""
  }

  function Cell(i: nat, b: byte): string {
    Gap(i) + Label(i) + (Hex(b, 2) + " ")
  }

  /** The unbounded dump. */
  function Dump(s: seq<byte>): string {
    if s == [] then "" else Dump(s[..|s| - 1]) + Cell(|s| - 1, s[|s| - 1])
  }

  // ---- Length, injectivity, prefixes --------------------------------------------------------

  lemma {:induction false} HexLength(n: nat, width: nat)
    requires n < Power16(width)
    ensures |Hex(n, width)| == width
  {
    if width > 0 {
      HexLength(n / 16, width - 1);
    }
  }

  function Power16(e: nat): nat {
    if e == 0 then 1 else 16 * Power16(e - 1)
  }

  lemma OctetLength(b: byte)
    ensures |Hex(b, 2)| == 2
  {
    assert Power16(2) == 16 * Power16(1);
    HexLength(b, 2);
  }

  lemma LabelLength(i: nat)
    requires i < 0x1_0000
    ensures |Hex(i, 4)| == 4
  {
    assert Power16(4) == 16 * Power16(3) == 256 * Power16(2) == 256 * (16 * Power16(1));
    HexLength(i, 4);
  }

  /** How many characters octet `i` adds. */
  function CellWidth(i: nat): (w: nat)
    ensures 3 <= w <= 16
  {
    3 + (if i == 0 then 10 else if i % 16 == 0 then 13 else if i % 8 == 0 then 2 else 0)
  }

  lemma MultipleOf16(i: nat)
    ensures i % 16 == 0 ==> i % 8 == 0
  {
    EighthIs(i, if i % 16 < 8 then 2 * (i / 16) else 2 * (i / 16) + 1);
  }

  lemma CellLength(i: nat, b: byte)
    requires i < 0x1_0000
    ensures |Cell(i, b)| == CellWidth(i)
  {
    hide Hex;
    MultipleOf16(i);
    LabelLength(i);
    OctetLength(b);
  }

  /** The length of a dump of `n` octets. */
  function DumpLength(n: nat): nat {
    if n == 0 then 0 else DumpLength(n - 1) + CellWidth(n - 1)
  }

  lemma EighthIs(x: nat, q: nat)
    requires 8 * q <= x < 8 * q + 8
    ensures x / 8 == q && x % 8 == x - 8 * q
  {
  }

  lemma SixteenthIs(x: nat, q: nat)
    requires 16 * q <= x < 16 * q + 16
    ensures x / 16 == q && x % 16 == x - 16 * q
  {
  }

  /** Its closed form: three characters an octet, two a gap, eleven a line, none before the first line. */
  lemma {:induction false} DumpLengthClosed(n: nat)
    requires n > 0
    ensures DumpLength(n) == 3 * n + 2 * ((n - 1) / 8) + 11 * ((n + 15) / 16) - 1
  {
    if n == 1 {
      assert DumpLength(1) == DumpLength(0) + CellWidth(0);
    } else {
      DumpLengthClosed(n - 1);
      ClosedStep(n - 1);
    }
  }

  lemma ClosedStep(i: nat)
    requires i > 0
    ensures 2 * (i / 8) + 11 * ((i + 16) / 16) == 2 * ((i - 1) / 8) + 11 * ((i + 15) / 16) + CellWidth(i) - 3
  {
    var q := i / 16;
    SixteenthIs(i, q);
    SixteenthIs(i + 16, q + 1);
    SixteenthIs(i + 15, if i % 16 == 0 then q else q + 1);
    EighthIs(i, if i < 16 * q + 8 then 2 * q else 2 * q + 1);
    EighthIs(i - 1, if i == 16 * q then 2 * q - 1 else if i - 1 < 16 * q + 8 then 2 * q else 2 * q + 1);
  }

  lemma {:induction false} DumpHasClosedLength(s: seq<byte>)
    requires |s| <= 0x1_0000
    ensures |Dump(s)| == DumpLength(|s|)
  {
    if s != [] {
      var i := |s| - 1;
      DumpHasClosedLength(s[..i]);
      CellLength(i, s[i]);
    }
  }

  lemma {:induction false} DumpLengthMonotone(m: nat, n: nat)
    requires m <= n
    ensures DumpLength(n) >= DumpLength(m) + 3 * (n - m)
    decreases n
  {
    if m < n {
      DumpLengthMonotone(m, n - 1);
    }
  }

  lemma HexOctetInjective(a: byte, b: byte)
    requires Hex(a, 2) == Hex(b, 2)
    ensures a == b
  {
    assert Hex(a, 2) == [Digit(a / 16), Digit(a % 16)] by { TwoDigits(a); }
    assert Hex(b, 2) == [Digit(b / 16), Digit(b % 16)] by { TwoDigits(b); }
    DigitInjective(a / 16, b / 16);
    DigitInjective(a % 16, b % 16);
  }

  lemma TwoDigits(b: byte)
    ensures Hex(b, 2) == [Digit(b / 16), Digit(b % 16)]
  {
    assert Hex(b, 2) == Hex(b / 16, 1) + [Digit(b % 16)];
    assert Hex(b / 16, 1) == Hex(0, 0) + [Digit(b / 16)];
  }

  lemma DigitInjective(m: nat, n: nat)
    requires m < 16 && n < 16
    requires Digit(m) == Digit(n)
    ensures m == n
  {
  }

  /** Dumps of the same length show the same number of octets. */
  lemma DumpLengthInjective(m: nat, n: nat)
    requires DumpLength(m) == DumpLength(n)
    ensures m == n
  {
    if m <= n {
      DumpLengthMonotone(m, n);
    } else {
      DumpLengthMonotone(n, m);
    }
  }

  lemma SameFrontSameLast(s: seq<byte>, t: seq<byte>)
    requires |s| == |t| > 0
    requires s[..|s| - 1] == t[..|t| - 1] && s[|s| - 1] == t[|t| - 1]
    ensures s == t
  {
    assert s == s[..|s| - 1] + [s[|s| - 1]];
    assert t == t[..|t| - 1] + [t[|t| - 1]];
  }

  lemma EmptyDump(s: seq<byte>)
    requires s == []
    ensures Dump(s) == ""
  {
  }

  /** A dump grows by the prefix and then the octet. */
  lemma DumpGrows(s: seq<byte>)
    requires s != []
    ensures var i := |s| - 1;
            Dump(s) == (Dump(s[..i]) + (Gap(i) + Label(i))) + (Hex(s[i], 2) + " ")
  {
    var i := |s| - 1;
    Associative(Dump(s[..i]), Gap(i) + Label(i), Hex(s[i], 2) + " ");
  }

  lemma Associative(a: string, b: string, c: string)
    ensures a + (b + c) == (a + b) + c
  {
  }

  lemma Cancel(a: string, b: string, c: string, d: string)
    requires a + b == c + d && |a| == |c|
    ensures a == c && b == d
  {
    assert a == (a + b)[..|a|] && c == (c + d)[..|a|];
    assert b == (a + b)[|a|..] && d == (c + d)[|a|..];
  }

  lemma CancelCells(whole: string, a: string, c: string, prefix: string, b: string, d: string, suffix: string)
    requires whole == (a + prefix) + (b + suffix) && whole == (c + prefix) + (d + suffix)
    requires |a| == |c| && |b| == |d|
    ensures a == c && b == d
  {
    Cancel(a + prefix, b + suffix, c + prefix, d + suffix);
    Cancel(a, prefix, c, prefix);
    Cancel(b, suffix, d, suffix);
  }

  /** Equal dumps come from equal octets. */
  lemma {:induction false} DumpInjective(s: seq<byte>, t: seq<byte>)
    requires |s| <= 0x1_0000 && |t| <= 0x1_0000
    requires Dump(s) == Dump(t)
    ensures s == t
  {
    hide Dump, DumpLength;
    EmptyDump([]);
    DumpHasClosedLength(s);
    DumpHasClosedLength(t);
    DumpLengthInjective(|s|, |t|);
    if s != [] {
      var i := |s| - 1;
      LastCellsEqual(s, t);
      DumpInjective(s[..i], t[..i]);
      SameFrontSameLast(s, t);
    }
  }

  /** Equal dumps of equally many octets end in the same octet and agree before it. */
  lemma LastCellsEqual(s: seq<byte>, t: seq<byte>)
    requires 0 < |s| == |t| <= 0x1_0000
    requires Dump(s) == Dump(t)
    ensures s[|s| - 1] == t[|s| - 1] && Dump(s[..|s| - 1]) == Dump(t[..|s| - 1])
  {
    hide *;
    var i := |s| - 1;
    DumpGrows(s);
    DumpGrows(t);
    DumpHasClosedLength(s[..i]);
    DumpHasClosedLength(t[..i]);
    OctetLength(s[i]);
    OctetLength(t[i]);
    CancelCells(Dump(s), Dump(s[..i]), Dump(t[..i]), Gap(i) + Label(i), Hex(s[i], 2), Hex(t[i], 2), " ");
    HexOctetInjective(s[i], t[i]);
  }

  /** A dump holds no terminator, so as a C string it is all of the text. */
  lemma {:induction false} DumpHasNoNul(s: seq<byte>)
    ensures NUL !in Dump(s)
  {
    if s != [] {
      DumpHasNoNul(s[..|s| - 1]);
      CellHasNoNul(|s| - 1, s[|s| - 1]);
    }
  }

  lemma CellHasNoNul(i: nat, b: byte)
    ensures NUL !in Cell(i, b)
  {
    HexHasNoNul(i, 4);
    HexHasNoNul(b, 2);
    assert NUL !in Gap(i);
    assert NUL !in Label(i);
  }

  lemma {:induction false} HexHasNoNul(n: nat, width: nat)
    ensures NUL !in Hex(n, width)
    decreases n, width
  {
    if n == 0 && width == 0 {
    } else {
      HexHasNoNul(n / 16, if width == 0 then 0 else width - 1);
    }
  }

  /** The dump of the first octets is a prefix of the whole dump. */
  lemma {:induction false} DumpOfPrefix(s: seq<byte>, k: nat)
    requires k <= |s|
    ensures Dump(s[..k]) <= Dump(s)
  {
    if k == |s| {
      assert s[..k] == s;
    } else {
      var t := s[..|s| - 1];
      DumpOfPrefix(t, k);
      assert t[..k] == s[..k];
      assert Dump(t) <= Dump(s);
    }
  }

  // ---- Reading a dump back ------------------------------------------------------------------

  /** The value of a hexadecimal digit, by its character code. */
  function HexCode(c: char): int {
    if '0' <= c <= '9' then c as int - 48
    else if 'a' <= c <= 'f' then c as int - 87
    else -1
  }

  /** Two digits that read as `b`, and a space. */
  predicate OctetAt(t: string, p: int, b: byte) {
    && 0 <= p && p + 3 <= |t|
    && 0 <= HexCode(t[p]) < 16 && 0 <= HexCode(t[p + 1]) < 16
    && 16 * HexCode(t[p]) + HexCode(t[p + 1]) == b as int && t[p + 2] == ' '
  }

  /** Four digits that read as `i`, between ">> " and ":  ". */
  predicate LabelAt(t: string, p: int, i: nat) {
    && 0 <= p && p + 10 <= |t|
    && t[p] == '>' && t[p + 1] == '>' && t[p + 2] == ' '
    && 0 <= HexCode(t[p + 3]) < 16 && 0 <= HexCode(t[p + 4]) < 16
    && 0 <= HexCode(t[p + 5]) < 16 && 0 <= HexCode(t[p + 6]) < 16
    && 4096 * HexCode(t[p + 3]) + 256 * HexCode(t[p + 4]) + 16 * HexCode(t[p + 5]) + HexCode(t[p + 6]) == i
    && t[p + 7] == ':' && t[p + 8] == ' ' && t[p + 9] == ' '
  }

  /** Octet `i` at position `p`, with the label of its line or the gap before it. */
  predicate CellAt(t: string, p: int, i: nat, b: byte) {
    && OctetAt(t, p, b)
    && (i % 16 == 0 ==> LabelAt(t, p - 10, i))
    && (i % 16 == 0 && i > 0 ==> p >= 13 && t[p - 13] == ' ' && t[p - 12] == ' ' && t[p - 11] == '\n')
    && (i % 8 == 0 && i % 16 != 0 ==> p >= 2 && t[p - 2] == ' ' && t[p - 1] == ' ')
  }

  /** Octet `i` of a dump, where it must be. */
  predicate ShowsOctet(t: string, i: nat, b: byte) {
    CellAt(t, 3 * i + 2 * (i / 8) + 11 * (i / 16) + 10, i, b)
  }

  lemma DigitReads(n: nat)
    requires n < 16
    ensures HexCode(Digit(n)) == n
  {
  }

  lemma FourDigits(i: nat)
    requires i < 0x1_0000
    ensures Hex(i, 4) == [Digit(i / 16 / 16 / 16), Digit(i / 16 / 16 % 16), Digit(i / 16 % 16), Digit(i % 16)]
  {
    assert Hex(i, 4) == Hex(i / 16, 3) + [Digit(i % 16)];
    assert Hex(i / 16, 3) == Hex(i / 16 / 16, 2) + [Digit(i / 16 % 16)];
    TwoDigits(i / 16 / 16);
  }

  lemma FourDigitsRead(i: nat)
    requires i < 0x1_0000
    ensures var t := Hex(i, 4);
            && |t| == 4
            && 0 <= HexCode(t[0]) < 16 && 0 <= HexCode(t[1]) < 16 && 0 <= HexCode(t[2]) < 16 && 0 <= HexCode(t[3]) < 16
            && 4096 * HexCode(t[0]) + 256 * HexCode(t[1]) + 16 * HexCode(t[2]) + HexCode(t[3]) == i
  {
    hide Hex, Digit, HexCode;
    FourDigits(i);
    DigitReads(i / 16 / 16 / 16);
    DigitReads(i / 16 / 16 % 16);
    DigitReads(i / 16 % 16);
    DigitReads(i % 16);
  }

  lemma TwoDigitsRead(b: byte)
    ensures OctetAt(Hex(b, 2) + " ", 0, b)
  {
    hide Hex, Digit, HexCode;
    TwoDigits(b);
    DigitReads(b / 16);
    DigitReads(b % 16);
  }

  /** A label, as it stands at the end of what precedes an octet. */
  lemma LabelReads(i: nat)
    requires i < 0x1_0000 && i % 16 == 0
    ensures LabelAt(Label(i), |Label(i)| - 10, i)
    ensures i > 0 ==> |Label(i)| == 11 && Label(i)[0] == '\n'
    ensures i == 0 ==> |Label(i)| == 10
  {
    hide Hex, HexCode;
    FourDigitsRead(i);
    var t := ">> " + Hex(i, 4) + ":  ";
    assert |t| == 10 && t[3..7] == Hex(i, 4);
    assert t[3] == t[3..7][0] && t[4] == t[3..7][1] && t[5] == t[3..7][2] && t[6] == t[3..7][3];
    assert LabelAt(t, 0, i);
    assert Label(i) == t || Label(i) == "\n" + t;
  }

  /** A cell shows its octet three characters before its end. */
  lemma CellShows(i: nat, b: byte)
    requires i < 0x1_0000
    ensures |Cell(i, b)| == CellWidth(i) && CellAt(Cell(i, b), CellWidth(i) - 3, i, b)
  {
    hide Hex, HexCode, Label;
    CellLength(i, b);
    OctetLength(b);
    TwoDigitsRead(b);
    MultipleOf16(i);
    var before, octet := Gap(i) + Label(i), Hex(b, 2) + " ";
    assert Cell(i, b) == before + octet;
    if i % 16 == 0 {
      LabelReads(i);
    }
  }

  lemma CellMoves(t: string, o: nat, c: string, p: int, i: nat, b: byte)
    requires o + |c| <= |t| && t[o..o + |c|] == c && CellAt(c, p, i, b)
    ensures CellAt(t, o + p, i, b)
  {
    hide HexCode;
    assert forall k :: 0 <= k < |c| ==> t[o + k] == c[k];
  }

  lemma CellPosition(i: nat)
    ensures DumpLength(i) + CellWidth(i) - 3 == 3 * i + 2 * (i / 8) + 11 * (i / 16) + 10
  {
    DumpLengthClosed(i + 1);
    SixteenthIs(i + 16, i / 16 + 1);
  }

  /** Every octet can be read back from a dump, in its place and with the label of its line. */
  lemma DumpShows(s: seq<byte>, i: nat)
    requires i < |s| <= 0x1_0000
    ensures ShowsOctet(Dump(s), i, s[i])
  {
    hide Dump, Cell, CellAt, CellWidth, DumpLength;
    var front, next := s[..i], s[..i + 1];
    assert next[..i] == front && next[i] == s[i];
    DumpOfPrefix(s, i + 1);
    DumpHasClosedLength(front);
    DumpStep(next);
    CellShows(i, s[i]);
    PartOfPrefix(Dump(s), Dump(front), Cell(i, s[i]));
    CellMoves(Dump(s), DumpLength(i), Cell(i, s[i]), CellWidth(i) - 3, i, s[i]);
    CellPosition(i);
  }

  lemma DumpStep(s: seq<byte>)
    requires s != []
    ensures Dump(s) == Dump(s[..|s| - 1]) + Cell(|s| - 1, s[|s| - 1])
  {
  }

  lemma PartOfPrefix(t: string, a: string, c: string)
    requires a + c <= t
    ensures |a| + |c| <= |t| && t[|a|..|a| + |c|] == c
  {
    assert (a + c)[|a|..] == c;
    assert t[..|a| + |c|] == a + c;
  }

  // ---- Where the dump stops -----------------------------------------------------------------

  /** Whether the loop breaks after octet `k - 1`: less than the reserve is left. */
  predicate CutOff(k: nat) {
    CAPACITY - DumpLength(k) < RESERVE
  }

  /** How many of `n` octets are shown: all, or up to the first cut-off. */
  function Shown(n: nat, from: nat): (k: nat)
    requires from <= n
    ensures from <= k <= n
    ensures k == n || (k > from && CutOff(k))
    ensures forall j :: from < j < k ==> !CutOff(j)
    decreases n - from
  {
    if from == n then n
    else if CutOff(from + 1) then from + 1
    else Shown(n, from + 1)
  }

  // ---- The formatter ------------------------------------------------------------------------

  class Formatter {
    /** The static buffer; its contents survive from call to call. */
    const str: array<char>

    constructor ()
      ensures fresh(str) && str.Length == 65536
    {
      str := new char[CAPACITY](_ => NUL);
    }

    /** `sprintf` at offset `p`: the text and its terminator. */
    method Print(p: nat, t: string, ghost before: string) returns (q: nat)
      requires p + |t| < str.Length
      requires str[..p] == before
      modifies str
      ensures q == p + |t|
      ensures str[..q] == before + t && str[q] == NUL
    {
      q := p + |t|;
      forall i | 0 <= i < |t| {
        str[p + i] := t[i];
      }
      str[q] := NUL;
    }

    /** The gap and the line label before octet `i`. */
    method PrintPrefix(i: nat, start: nat, ghost before: string) returns (p: nat)
      requires str.Length == CAPACITY
      requires start <= CAPACITY - RESERVE && i < 0x1_0000
      requires str[..start] == before
      modifies str
      ensures p == start + CellWidth(i) - 3
      ensures str[..p] == before + (Gap(i) + Label(i))
    {
      LabelLength(i);
      p := start;
      if i % 8 == 0 && i != 0 {
        p := Print(p, "  ", before);
      }
      ghost var gapped := before + Gap(i);
      assert str[..p] == gapped;
      if i % 16 == 0 {
        if i == 0 {
          p := Print(p, ">> " + Hex(i, 4) + ":  ", gapped);
        } else {
          str[p] := '\n';
          p := p + 1;
          p := Print(p, ">> " + Hex(i, 4) + ":  ", gapped + "\n");
          Associative(gapped, "\n", ">> " + Hex(i, 4) + ":  ");
        }
      }
      assert str[..p] == gapped + Label(i);
      Associative(before, Gap(i), Label(i));
    }

    /** One turn of the loop: everything that octet `i`, the last of `shown`, adds. */
    method PrintCell(i: nat, b: byte, start: nat, ghost shown: seq<byte>) returns (p: nat)
      requires str.Length == CAPACITY
      requires start == DumpLength(i) <= CAPACITY - RESERVE && i < 0x1_0000
      requires |shown| == i + 1 && shown[i] == b
      requires str[..start] == Dump(shown[..i])
      modifies str
      ensures p == DumpLength(i + 1) < CAPACITY
      ensures str[..p] == Dump(shown) && str[p] == NUL
    {
      hide Gap, Label, Hex, CellWidth, Dump;
      p := PrintPrefix(i, start, Dump(shown[..i]));
      OctetLength(b);
      p := Print(p, Hex(b, 2) + " ", Dump(shown[..i]) + (Gap(i) + Label(i)));
      DumpGrows(shown);
    }

    /**
     The text in the buffer is the dump of the octets shown, NUL-terminated inside the
     buffer; an empty input leaves the old text.
     */
    method HexDump2(buffer: array<byte>, len: int)
      requires str.Length == 65536
      requires len <= buffer.Length
      modifies str
      ensures len <= 0 ==> str[..] == old(str[..])
      ensures len > 0 ==>
                var k := Shown(len, 0);
                var text := Dump(buffer[..k]);
                |text| < CAPACITY && str[..|text|] == text && str[|text|] == NUL
      ensures len > 0 ==> BufferShows(str[..], buffer[..len])
    {
      hide BufferShows, Gap, Label, Hex, CellWidth, Dump, Cell;
      if len <= 0 {
        return;
      }
      ghost var input := buffer[..len];
      EmptyDump(input[..0]);
      var i := 0;
      var p := 0;
      while i < len
        invariant 0 <= i <= len
        invariant p == DumpLength(i) <= CAPACITY - RESERVE
        invariant str[..p] == Dump(input[..i])
        invariant i > 0 ==> str[p] == NUL
        invariant Shown(len, 0) == Shown(len, i)
      {
        DumpLengthMonotone(0, i);
        assert input[..i + 1][..i] == input[..i];
        p := PrintCell(i, buffer[i], p, input[..i + 1]);
        i := i + 1;
        if CAPACITY - p < RESERVE {
          break;
        }
      }
      assert Shown(len, 0) == i;
      assert buffer[..i] == input[..i];
      assert str[..][..p] == str[..p] && str[..][p] == str[p];
      DumpOnBuffer(str[..], input);
    }
  }

  /** No more than the first cut-off is ever shown, and a cut dump still fits its buffer. */
  lemma ShownFits(n: nat)
    ensures Shown(n, 0) <= 0x1_0000
    ensures DumpLength(Shown(n, 0)) < CAPACITY
  {
    var k := Shown(n, 0);
    if k > 1 {
      assert !CutOff(k - 1);
      DumpLengthMonotone(0, k - 1);
    }
  }

  /** Two dumps that come out equal show equal octets, cut off or not. */
  lemma EqualDumpsShowEqualOctets(s: seq<byte>, t: seq<byte>)
    requires Dump(s[..Shown(|s|, 0)]) == Dump(t[..Shown(|t|, 0)])
    ensures s[..Shown(|s|, 0)] == t[..Shown(|t|, 0)]
  {
    hide Dump, DumpLength;
    ShownFits(|s|);
    ShownFits(|t|);
    DumpInjective(s[..Shown(|s|, 0)], t[..Shown(|t|, 0)]);
  }

  /** How far a dump goes: 16626 octets fit, and no more are ever shown. */
  lemma ShownIs(n: nat)
    ensures Shown(n, 0) == if n <= 16626 then n else 16626
  {
    hide DumpLength, Shown;
    DumpLengthClosed(16625);
    DumpLengthClosed(16626);
    assert !CutOff(16625) && CutOff(16626);
    var k := Shown(n, 0);
    if k < n && k < 16626 {
      DumpLengthMonotone(k, 16625);
    }
  }

  /** The buffer after a dump: every octet shown can be read in its place, and the text ends in its own. */
  predicate BufferShows(str: seq<char>, s: seq<byte>) {
    var k := if |s| <= 16626 then |s| else 16626;
    && (forall i :: 0 <= i < k ==> ShowsOctet(str, i, s[i]))
    && (k > 0 ==> var end := 3 * k + 2 * ((k - 1) / 8) + 11 * ((k + 15) / 16) - 1;
                  0 <= end < |str| && str[end] == '\0')
  }

  lemma DumpOnBuffer(str: seq<char>, s: seq<byte>)
    requires var text := Dump(s[..Shown(|s|, 0)]);
             |text| < |str| && str[..|text|] == text && (s != [] ==> str[|text|] == NUL)
    ensures BufferShows(str, s)
  {
    hide Dump, ShowsOctet;
    var k := Shown(|s|, 0);
    var shown := s[..k];
    ShownIs(|s|);
    DumpHasClosedLength(shown);
    forall i | 0 <= i < k
      ensures ShowsOctet(str, i, s[i])
    {
      DumpShows(shown, i);
      ShowsInPrefix(str, Dump(shown), i, s[i]);
    }
    if k > 0 {
      DumpLengthClosed(k);
    }
  }

  lemma ShowsInPrefix(t: string, c: string, i: nat, b: byte)
    requires |c| <= |t| && t[..|c|] == c && ShowsOctet(c, i, b)
    ensures ShowsOctet(t, i, b)
  {
    hide CellAt;
    CellMoves(t, 0, c, 3 * i + 2 * (i / 8) + 11 * (i / 16) + 10, i, b);
  }

  /** A dump is truncated exactly when the closed length of its input exceeds the room. */
  lemma TruncatedIff(n: nat)
    ensures Shown(n, 0) < n <==> n > 0 && CutOff(n - 1)
  {
    if n > 0 && CutOff(n - 1) {
      if n - 1 > 0 {
        assert Shown(n, 0) <= n - 1;
      }
    }
    if Shown(n, 0) < n - 1 {
      DumpLengthMonotone(Shown(n, 0), n - 1);
    }
  }
}

/** Counting Ethernet frames by EtherType, and the sorted summary that is printed at the end. */
module FrameStatistics {
  import opened Bytes
  import opened Sequences
  import opened TypeInfoList

  const ETH_ALEN := 6
  const RECBUFFER_SIZE := 1514

  /** What the receive loop uses of a frame. */
  datatype Frame = Frame(destination: seq<byte>, ethType: word, length: nat)

  // ---- The frames received ------------------------------------------------------------------

  /** A read overwrites the front of the buffer and leaves what an earlier frame put behind it. */
  function Overlay(buffer: seq<byte>, read: seq<byte>): (after: seq<byte>)
    requires |read| <= |buffer|
    ensures |after| == |buffer|
  {
    read + buffer[|read|..]
  }

  function FrameIn(buffer: seq<byte>, length: nat): Frame
    requires |buffer| >= 2 * ETH_ALEN + 2
  {
    Frame(buffer[..ETH_ALEN], Word(buffer[2 * ETH_ALEN], buffer[2 * ETH_ALEN + 1]), length)
  }

  /** What the kernel may deliver into a buffer of this size. */
  predicate ValidReads(inputs: seq<seq<byte>>) {
    forall r :: r in inputs ==> |r| <= RECBUFFER_SIZE
  }

  /** The frames that `n` turns of the loop see; an empty or missing read is a timeout and ends it. */
  function Seen(buffer: seq<byte>, inputs: seq<seq<byte>>, n: int): (frames: seq<Frame>)
    requires |buffer| == RECBUFFER_SIZE
    requires ValidReads(inputs)
    ensures n >= 0 ==> |frames| <= n
    decreases |inputs|
  {
    if n <= 0 || inputs == [] || inputs[0] == [] then []
    else
      var after := Overlay(buffer, inputs[0]);
      [FrameIn(after, |inputs[0]|)] + Seen(after, inputs[1..], n - 1)
  }

  // ---- 32-bit counters ----------------------------------------------------------------------

  function Wrap32(n: nat): nat {
    n % TWO32
  }

  lemma WrapSmall(n: nat)
    requires n < TWO32
    ensures Wrap32(n) == n
  {
  }

  lemma WrapAdd(a: nat, b: nat)
    ensures Wrap32(Wrap32(a) + b) == Wrap32(a + b)
  {
    var q := a / TWO32;
    assert a + b == Wrap32(a) + b + TWO32 * q;
  }

  // ---- What the summary must say ------------------------------------------------------------

  function Count(frames: seq<Frame>, ethType: word): (n: nat)
    ensures n <= |frames|
  {
    if frames == [] then 0
    else
      var last := |frames| - 1;
      Count(frames[..last], ethType) + if frames[last].ethType == ethType then 1 else 0
  }

  function Octets(frames: seq<Frame>, ethType: word): nat {
    if frames == [] then 0
    else
      var last := |frames| - 1;
      Octets(frames[..last], ethType) + if frames[last].ethType == ethType then frames[last].length else 0
  }

  function TotalOctets(frames: seq<Frame>): nat {
    if frames == [] then 0 else TotalOctets(frames[..|frames| - 1]) + frames[|frames| - 1].length
  }

  function CountTo(frames: seq<Frame>, mac: seq<byte>): (n: nat)
    ensures n <= |frames|
  {
    if frames == [] then 0
    else
      var last := |frames| - 1;
      CountTo(frames[..last], mac) + if frames[last].destination == mac then 1 else 0
  }

  predicate Multicast(mac: seq<byte>) {
    mac != [] && mac[0] % 2 == 1
  }

  function CountMulticast(frames: seq<Frame>): (n: nat)
    ensures n <= |frames|
  {
    if frames == [] then 0
    else
      var last := |frames| - 1;
      CountMulticast(frames[..last]) + if Multicast(frames[last].destination) then 1 else 0
  }

  predicate Increasing(rows: seq<Entry>) {
    forall i, j :: 0 <= i < j < |rows| ==> rows[i].ethType < rows[j].ethType
  }

  predicate DistinctTypes(rows: seq<Entry>) {
    forall i, j :: 0 <= i < j < |rows| ==> rows[i].ethType != rows[j].ethType
  }

  /** Every row stands for a type that occurs, with its counts. */
  predicate RowsCorrect(rows: seq<Entry>, frames: seq<Frame>) {
    forall e :: e in rows ==>
      && e.frames == Count(frames, e.ethType) > 0
      && e.bytes == Wrap32(Octets(frames, e.ethType))
  }

  ghost predicate Complete(rows: seq<Entry>, frames: seq<Frame>) {
    forall t: word :: Count(frames, t) > 0 ==> Find(rows, t) < |rows|
  }

  /** The sorted group-by: each occurring type once, in increasing order, with its exact counts. */
  ghost predicate IsSummary(rows: seq<Entry>, frames: seq<Frame>) {
    Increasing(rows) && RowsCorrect(rows, frames) && Complete(rows, frames)
  }

  /** There is only one summary of a sequence of frames. */
  lemma SummaryUnique(a: seq<Entry>, b: seq<Entry>, frames: seq<Frame>)
    requires IsSummary(a, frames) && IsSummary(b, frames)
    ensures a == b
  {
    SameRows(a, b, frames);
    SameRows(b, a, frames);
    IncreasingDetermined(a, b);
  }

  lemma SameRows(a: seq<Entry>, b: seq<Entry>, frames: seq<Frame>)
    requires IsSummary(a, frames) && IsSummary(b, frames)
    ensures forall e :: e in a ==> e in b
  {
    forall e | e in a
      ensures e in b
    {
      var k := Find(b, e.ethType);
      assert b[k] in b && b[k] == e;
    }
  }

  lemma {:induction false} IncreasingDetermined(a: seq<Entry>, b: seq<Entry>)
    requires Increasing(a) && Increasing(b)
    requires forall e :: e in a <==> e in b
    ensures a == b
  {
    assert a != [] ==> a[0] in a;
    assert b != [] ==> b[0] in b;
    if a != [] && b != [] {
      forall e
        ensures e in a[1..] <==> e in b[1..]
      {
        assert e in a[1..] <==> e in a && e != a[0];
        assert e in b[1..] <==> e in b && e != b[0];
      }
      IncreasingDetermined(a[1..], b[1..]);
      assert a == [a[0]] + a[1..] && b == [b[0]] + b[1..];
    }
  }

  // ---- The table the list holds -------------------------------------------------------------

  /** The table after one more frame, as 32-bit counters hold it. */
  function Record(rows: seq<Entry>, ethType: word, length: nat): seq<Entry> {
    var k := Find(rows, ethType);
    if k == |rows| then rows + [Entry(ethType, 1, Wrap32(length))]
    else rows[k := Entry(ethType, Wrap32(rows[k].frames + 1), Wrap32(rows[k].bytes + length))]
  }

  /** The table after all frames, rows in the order of first appearance. */
  function Table(frames: seq<Frame>): seq<Entry> {
    if frames == [] then []
    else
      var last := frames[|frames| - 1];
      Record(Table(frames[..|frames| - 1]), last.ethType, last.length)
  }

  /** After every frame the table has one correct row for each type that occurred. */
  lemma {:induction false} TableCorrect(frames: seq<Frame>)
    requires |frames| < TWO32
    ensures DistinctTypes(Table(frames))
    ensures RowsCorrect(Table(frames), frames)
    ensures Complete(Table(frames), frames)
  {
    if frames != [] {
      var last := |frames| - 1;
      TableCorrect(frames[..last]);
      RecordCorrect(Table(frames[..last]), frames);
    }
  }

  /** Recording the last frame extends a correct table of the earlier ones. */
  lemma RecordCorrect(rows: seq<Entry>, frames: seq<Frame>)
    requires 0 < |frames| < TWO32
    requires var front := frames[..|frames| - 1];
             DistinctTypes(rows) && RowsCorrect(rows, front) && Complete(rows, front)
    ensures var last := frames[|frames| - 1];
            var after := Record(rows, last.ethType, last.length);
            DistinctTypes(after) && RowsCorrect(after, frames) && Complete(after, frames)
  {
    RecordRowsCorrect(rows, frames);
    var f := frames[|frames| - 1];
    var after := Record(rows, f.ethType, f.length);
    forall t: word | Count(frames, t) > 0
      ensures Find(after, t) < |after|
    {
      var j := Find(rows, t);
      if j < |rows| {
        assert after[j].ethType == t;
      } else {
        assert t == f.ethType && after[|rows|].ethType == t;
      }
    }
  }

  lemma RecordRowsCorrect(rows: seq<Entry>, frames: seq<Frame>)
    requires 0 < |frames| < TWO32
    requires var front := frames[..|frames| - 1];
             DistinctTypes(rows) && RowsCorrect(rows, front) && Complete(rows, front)
    ensures var last := frames[|frames| - 1];
            RowsCorrect(Record(rows, last.ethType, last.length), frames)
  {
    hide Wrap32;
    var front, f := frames[..|frames| - 1], frames[|frames| - 1];
    var after := Record(rows, f.ethType, f.length);
    var k := Find(rows, f.ethType);
    forall i | 0 <= i < |after|
      ensures after[i].frames == Count(frames, after[i].ethType) > 0
      ensures after[i].bytes == Wrap32(Octets(frames, after[i].ethType))
    {
      if i < |rows| {
        assert rows[i] in rows;
        WrapSmall(rows[i].frames + 1);
        WrapAdd(Octets(front, f.ethType), f.length);
      } else {
        NoneCounted(front, f.ethType);
      }
    }
  }

  lemma {:induction false} NoneCounted(frames: seq<Frame>, ethType: word)
    requires Count(frames, ethType) == 0
    ensures Octets(frames, ethType) == 0
  {
    if frames != [] {
      NoneCounted(frames[..|frames| - 1], ethType);
    }
  }

  // ---- Conservation -------------------------------------------------------------------------

  function SumFrames(rows: seq<Entry>): nat {
    if rows == [] then 0 else rows[0].frames + SumFrames(rows[1..])
  }

  function SumBytes(rows: seq<Entry>): nat {
    if rows == [] then 0 else rows[0].bytes + SumBytes(rows[1..])
  }

  lemma {:induction false} SumsWithout(rows: seq<Entry>, k: nat)
    requires k < |rows|
    ensures SumFrames(rows) == rows[k].frames + SumFrames(Without(rows, k))
    ensures SumBytes(rows) == rows[k].bytes + SumBytes(Without(rows, k))
  {
    if k == 0 {
      assert Without(rows, 0) == rows[1..];
    } else {
      assert Without(rows, k)[1..] == Without(rows[1..], k - 1);
      SumsWithout(rows[1..], k - 1);
    }
  }

  lemma SumsReplaced(rows: seq<Entry>, k: nat, e: Entry)
    requires k < |rows|
    ensures SumFrames(rows[k := e]) == SumFrames(rows) - rows[k].frames + e.frames
    ensures SumBytes(rows[k := e]) == SumBytes(rows) - rows[k].bytes + e.bytes
  {
    SumsWithout(rows, k);
    SumsWithout(rows[k := e], k);
    assert Without(rows[k := e], k) == Without(rows, k);
  }

  lemma SumsAppended(rows: seq<Entry>, e: Entry)
    ensures SumFrames(rows + [e]) == SumFrames(rows) + e.frames
    ensures SumBytes(rows + [e]) == SumBytes(rows) + e.bytes
  {
    SumsWithout(rows + [e], |rows|);
    assert Without(rows + [e], |rows|) == rows;
  }

  /** Wrapping one row, and wrapping the sum, agree on what is left of the sum. */
  lemma WrappedRow(sum: nat, row: nat, length: nat, total: nat)
    requires row <= sum && Wrap32(sum) == Wrap32(total)
    ensures Wrap32(sum - row + Wrap32(row + length)) == Wrap32(total + length)
  {
    WrapAdd(row + length, sum - row);
    WrapAdd(sum, length);
    WrapAdd(total, length);
  }

  /**
   Nothing is lost: after every frame the frame counters add up to the number of frames,
   and the byte counters to the 32-bit byte total.
   */
  lemma {:induction false} TableConserves(frames: seq<Frame>)
    requires |frames| < TWO32
    ensures SumFrames(Table(frames)) == |frames|
    ensures Wrap32(SumBytes(Table(frames))) == Wrap32(TotalOctets(frames))
  {
    if frames != [] {
      TableConserves(frames[..|frames| - 1]);
      LastFrameConserved(frames);
    }
  }

  lemma LastFrameConserved(frames: seq<Frame>)
    requires 0 < |frames| < TWO32
    requires var front := frames[..|frames| - 1];
             && SumFrames(Table(front)) == |front|
             && Wrap32(SumBytes(Table(front))) == Wrap32(TotalOctets(front))
    ensures SumFrames(Table(frames)) == |frames|
    ensures Wrap32(SumBytes(Table(frames))) == Wrap32(TotalOctets(frames))
  {
    hide Wrap32, SumBytes, SumFrames, Record, Count, Octets, Complete, DistinctTypes;
    var front, f := frames[..|frames| - 1], frames[|frames| - 1];
    TableCorrect(front);
    var k := Find(Table(front), f.ethType);
    if k < |Table(front)| {
      assert Table(front)[k] in Table(front);
    }
    RecordConserves(Table(front), f.ethType, f.length, TotalOctets(front));
  }

  lemma RecordConserves(rows: seq<Entry>, ethType: word, length: nat, total: nat)
    requires var k := Find(rows, ethType); k < |rows| ==> rows[k].frames + 1 < TWO32
    requires Wrap32(SumBytes(rows)) == Wrap32(total)
    ensures SumFrames(Record(rows, ethType, length)) == SumFrames(rows) + 1
    ensures Wrap32(SumBytes(Record(rows, ethType, length))) == Wrap32(total + length)
  {
    hide Wrap32, SumBytes, SumFrames;
    var k := Find(rows, ethType);
    if k == |rows| {
      SumsAppended(rows, Entry(ethType, 1, Wrap32(length)));
      WrappedRow(SumBytes(rows), 0, length, total);
    } else {
      WrapSmall(rows[k].frames + 1);
      SumsReplaced(rows, k, Entry(ethType, rows[k].frames + 1, Wrap32(rows[k].bytes + length)));
      SumsWithout(rows, k);
      WrappedRow(SumBytes(rows), rows[k].bytes, length, total);
    }
  }

  /** With a unicast address of our own, no frame is counted both as ours and as multicast. */
  lemma {:induction false} OwnAndMulticastDisjoint(frames: seq<Frame>, mac: seq<byte>)
    requires !Multicast(mac)
    ensures CountTo(frames, mac) + CountMulticast(frames) <= |frames|
  {
    if frames != [] {
      OwnAndMulticastDisjoint(frames[..|frames| - 1], mac);
    }
  }
}

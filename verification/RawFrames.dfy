/** The summary in terms of the reads themselves: which octets count, and how. */
module RawFrames {
  import opened Bytes
  import opened FrameStatistics
  import opened TypeInfoList

  /** The loop takes the first `k` of the reads: all before the first timeout, but no more than asked for. */
  predicate StopsAfter(inputs: seq<seq<byte>>, frames: int, k: nat) {
    && k <= |inputs| && (k == 0 || k <= frames)
    && (forall i :: 0 <= i < k ==> inputs[i] != [])
    && (k >= frames || k == |inputs| || inputs[k] == [])
  }

  /** Octet `p` of the buffer after read `i`: from the latest read that was long enough. */
  function OctetAt(buffer: seq<byte>, inputs: seq<seq<byte>>, i: nat, p: nat): byte
    requires i < |inputs| && p < |buffer|
  {
    if p < |inputs[i]| then inputs[i][p]
    else if i == 0 then buffer[p]
    else OctetAt(buffer, inputs, i - 1, p)
  }

  /** The EtherType is in octets 12 and 13, the more significant one first. */
  function TypeAt(buffer: seq<byte>, inputs: seq<seq<byte>>, i: nat): nat
    requires i < |inputs| && 14 <= |buffer|
  {
    256 * (OctetAt(buffer, inputs, i, 12) as nat) + OctetAt(buffer, inputs, i, 13) as nat
  }

  /** The destination is in octets 0 to 5. */
  function DestinationAt(buffer: seq<byte>, inputs: seq<seq<byte>>, i: nat): seq<byte>
    requires i < |inputs| && 14 <= |buffer|
  {
    [OctetAt(buffer, inputs, i, 0), OctetAt(buffer, inputs, i, 1), OctetAt(buffer, inputs, i, 2),
     OctetAt(buffer, inputs, i, 3), OctetAt(buffer, inputs, i, 4), OctetAt(buffer, inputs, i, 5)]
  }

  /** A read of at least 14 octets is looked at alone. */
  lemma WholeHeader(buffer: seq<byte>, inputs: seq<seq<byte>>, i: nat)
    requires i < |inputs| && 14 <= |buffer| && |inputs[i]| >= 14
    ensures DestinationAt(buffer, inputs, i) == inputs[i][..6]
    ensures TypeAt(buffer, inputs, i) == 256 * (inputs[i][12] as nat) + inputs[i][13] as nat
  {
  }

  // ---- The frames seen ----------------------------------------------------------------------

  lemma {:induction false} OctetAfterOverlay(buffer: seq<byte>, inputs: seq<seq<byte>>, i: nat, p: nat)
    requires 0 < i < |inputs| && p < |buffer| && |inputs[0]| <= |buffer|
    ensures OctetAt(Overlay(buffer, inputs[0]), inputs[1..], i - 1, p) == OctetAt(buffer, inputs, i, p)
    decreases i
  {
    if p >= |inputs[i]| && i > 1 {
      OctetAfterOverlay(buffer, inputs, i - 1, p);
    }
  }

  predicate FrameAt(f: Frame, buffer: seq<byte>, inputs: seq<seq<byte>>, i: nat)
    requires i < |inputs| && 14 <= |buffer|
  {
    && f.destination == DestinationAt(buffer, inputs, i)
    && f.ethType == TypeAt(buffer, inputs, i)
    && f.length == |inputs[i]|
  }

  lemma FrameAfterOverlay(f: Frame, buffer: seq<byte>, inputs: seq<seq<byte>>, i: nat)
    requires 0 < i < |inputs| && 14 <= |buffer| && |inputs[0]| <= |buffer|
    ensures FrameAt(f, Overlay(buffer, inputs[0]), inputs[1..], i - 1) <==> FrameAt(f, buffer, inputs, i)
  {
    forall p | 0 <= p < 14
      ensures OctetAt(Overlay(buffer, inputs[0]), inputs[1..], i - 1, p) == OctetAt(buffer, inputs, i, p)
    {
      OctetAfterOverlay(buffer, inputs, i, p);
    }
  }

  /** What the loop sees: as many frames as it takes reads, each from its own octets. */
  lemma {:induction false} SeenFrames(buffer: seq<byte>, inputs: seq<seq<byte>>, frames: int, k: nat)
    requires |buffer| == RECBUFFER_SIZE && ValidReads(inputs) && StopsAfter(inputs, frames, k)
    ensures var seen := Seen(buffer, inputs, frames);
            |seen| == k && forall i :: 0 <= i < k ==> FrameAt(seen[i], buffer, inputs, i)
    decreases |inputs|
  {
    hide FrameAt, Overlay, FrameIn;
    if k > 0 {
      var after, rest := Overlay(buffer, inputs[0]), inputs[1..];
      var seen := Seen(buffer, inputs, frames);
      FirstFrame(buffer, inputs);
      SeenFrames(after, rest, frames - 1, k - 1);
      forall i | 0 <= i < k
        ensures FrameAt(seen[i], buffer, inputs, i)
      {
        if i > 0 {
          FrameAfterOverlay(seen[i], buffer, inputs, i);
        }
      }
    }
  }

  lemma FirstFrame(buffer: seq<byte>, inputs: seq<seq<byte>>)
    requires inputs != [] && 14 <= |buffer| && |inputs[0]| <= |buffer|
    ensures FrameAt(FrameIn(Overlay(buffer, inputs[0]), |inputs[0]|), buffer, inputs, 0)
  {
    var b := Overlay(buffer, inputs[0]);
    assert forall p :: 0 <= p < |b| ==> b[p] == OctetAt(buffer, inputs, 0, p);
    assert b[..6] == [b[0], b[1], b[2], b[3], b[4], b[5]];
  }

  /** There is one place to stop, and only one. */
  lemma StopUnique(inputs: seq<seq<byte>>, frames: int, j: nat, k: nat)
    requires StopsAfter(inputs, frames, j) && StopsAfter(inputs, frames, k)
    ensures j == k
  {
  }

  lemma {:induction false} StopExists(inputs: seq<seq<byte>>, frames: int) returns (k: nat)
    ensures StopsAfter(inputs, frames, k)
    decreases |inputs|
  {
    k := 0;
    if frames > 0 && inputs != [] && inputs[0] != [] {
      var j := StopExists(inputs[1..], frames - 1);
      k := j + 1;
    }
  }

  // ---- Counting -----------------------------------------------------------------------------

  function HowMany(marks: seq<bool>): nat {
    if marks == [] then 0 else HowMany(marks[..|marks| - 1]) + if marks[|marks| - 1] then 1 else 0
  }

  ghost function Marked(marks: seq<bool>): set<int> {
    set i | 0 <= i < |marks| && marks[i]
  }

  lemma {:induction false} HowManyIs(marks: seq<bool>)
    ensures HowMany(marks) == |Marked(marks)|
  {
    if marks != [] {
      var last := |marks| - 1;
      HowManyIs(marks[..last]);
      assert Marked(marks) == Marked(marks[..last]) + if marks[last] then {last} else {};
    }
  }

  lemma {:induction false} CountIs(frames: seq<Frame>, t: word, marks: seq<bool>)
    requires |marks| == |frames| && forall i :: 0 <= i < |marks| ==> (marks[i] <==> frames[i].ethType == t)
    ensures Count(frames, t) == HowMany(marks)
  {
    if frames != [] {
      CountIs(frames[..|frames| - 1], t, marks[..|marks| - 1]);
    }
  }

  lemma {:induction false} CountToIs(frames: seq<Frame>, mac: seq<byte>, marks: seq<bool>)
    requires |marks| == |frames| && forall i :: 0 <= i < |marks| ==> (marks[i] <==> frames[i].destination == mac)
    ensures CountTo(frames, mac) == HowMany(marks)
  {
    if frames != [] {
      CountToIs(frames[..|frames| - 1], mac, marks[..|marks| - 1]);
    }
  }

  lemma {:induction false} CountMulticastIs(frames: seq<Frame>, marks: seq<bool>)
    requires |marks| == |frames| && forall i :: 0 <= i < |marks| ==> (marks[i] <==> Multicast(frames[i].destination))
    ensures CountMulticast(frames) == HowMany(marks)
  {
    if frames != [] {
      CountMulticastIs(frames[..|frames| - 1], marks[..|marks| - 1]);
    }
  }

  /** The octets received in the first `k` reads, and those of one type. */
  function Received(inputs: seq<seq<byte>>, k: nat): nat
    requires k <= |inputs|
  {
    if k == 0 then 0 else Received(inputs, k - 1) + |inputs[k - 1]|
  }

  function ReceivedOf(buffer: seq<byte>, inputs: seq<seq<byte>>, k: nat, t: nat): nat
    requires k <= |inputs| && 14 <= |buffer|
  {
    if k == 0 then 0
    else ReceivedOf(buffer, inputs, k - 1, t) + if TypeAt(buffer, inputs, k - 1) == t then |inputs[k - 1]| else 0
  }

  lemma {:induction false} ReceivedIs(frames: seq<Frame>, buffer: seq<byte>, inputs: seq<seq<byte>>, k: nat, t: word)
    requires k == |frames| <= |inputs| && 14 <= |buffer|
    requires forall i :: 0 <= i < k ==> FrameAt(frames[i], buffer, inputs, i)
    ensures TotalOctets(frames) == Received(inputs, k)
    ensures Octets(frames, t) == ReceivedOf(buffer, inputs, k, t)
    decreases k
  {
    if k > 0 {
      ReceivedIs(frames[..k - 1], buffer, inputs, k - 1, t);
    }
  }

  // ---- The report ---------------------------------------------------------------------------

  /** The reads of a type, those to an address, and those to a group, among the first `k`. */
  ghost function OfType(buffer: seq<byte>, inputs: seq<seq<byte>>, k: nat, t: nat): set<int>
    requires k <= |inputs| && 14 <= |buffer|
  {
    set i | 0 <= i < k && TypeAt(buffer, inputs, i) == t
  }

  ghost function ToAddress(buffer: seq<byte>, inputs: seq<seq<byte>>, k: nat, mac: seq<byte>): set<int>
    requires k <= |inputs| && 14 <= |buffer|
  {
    set i | 0 <= i < k && DestinationAt(buffer, inputs, i) == mac
  }

  ghost function ToGroup(buffer: seq<byte>, inputs: seq<seq<byte>>, k: nat): set<int>
    requires k <= |inputs| && 14 <= |buffer|
  {
    set i | 0 <= i < k && OctetAt(buffer, inputs, i, 0) % 2 == 1
  }

  /** One row for each type that occurs, in strictly increasing order, with its counts. */
  ghost predicate RowsReport(printed: seq<Entry>, buffer: seq<byte>, inputs: seq<seq<byte>>, k: nat)
    requires k <= |inputs| && 14 <= |buffer|
  {
    && (forall i, j :: 0 <= i < j < |printed| ==> printed[i].ethType < printed[j].ethType)
    && (forall e :: e in printed ==>
          && e.frames == |OfType(buffer, inputs, k, e.ethType)| > 0
          && e.bytes == ReceivedOf(buffer, inputs, k, e.ethType) % 0x1_0000_0000)
    && (forall i :: 0 <= i < k ==> HasRow(printed, TypeAt(buffer, inputs, i)))
  }

  predicate HasRow(printed: seq<Entry>, t: nat) {
    exists j :: 0 <= j < |printed| && printed[j].ethType == t
  }

  lemma CountsAre(frames: seq<Frame>, buffer: seq<byte>, inputs: seq<seq<byte>>, k: nat, mac: seq<byte>)
    requires k == |frames| <= |inputs| && 14 <= |buffer|
    requires forall i :: 0 <= i < k ==> FrameAt(frames[i], buffer, inputs, i)
    ensures CountTo(frames, mac) == |ToAddress(buffer, inputs, k, mac)|
    ensures CountMulticast(frames) == |ToGroup(buffer, inputs, k)|
  {
    OwnAre(frames, buffer, inputs, k, mac);
    GroupAre(frames, buffer, inputs, k);
  }

  lemma OwnAre(frames: seq<Frame>, buffer: seq<byte>, inputs: seq<seq<byte>>, k: nat, mac: seq<byte>)
    requires k == |frames| <= |inputs| && 14 <= |buffer|
    requires forall i :: 0 <= i < k ==> FrameAt(frames[i], buffer, inputs, i)
    ensures CountTo(frames, mac) == |ToAddress(buffer, inputs, k, mac)|
  {
    hide DestinationAt, OctetAt;
    var own := seq(k, i requires 0 <= i < k => frames[i].destination == mac);
    CountToIs(frames, mac, own);
    HowManyIs(own);
    assert Marked(own) == ToAddress(buffer, inputs, k, mac);
  }

  lemma GroupAre(frames: seq<Frame>, buffer: seq<byte>, inputs: seq<seq<byte>>, k: nat)
    requires k == |frames| <= |inputs| && 14 <= |buffer|
    requires forall i :: 0 <= i < k ==> FrameAt(frames[i], buffer, inputs, i)
    ensures CountMulticast(frames) == |ToGroup(buffer, inputs, k)|
  {
    hide OctetAt;
    var group := seq(k, i requires 0 <= i < k => Multicast(frames[i].destination));
    CountMulticastIs(frames, group);
    HowManyIs(group);
    assert Marked(group) == ToGroup(buffer, inputs, k);
  }

  lemma CountOfType(frames: seq<Frame>, buffer: seq<byte>, inputs: seq<seq<byte>>, k: nat, t: word)
    requires k == |frames| <= |inputs| && 14 <= |buffer|
    requires forall i :: 0 <= i < k ==> FrameAt(frames[i], buffer, inputs, i)
    ensures Count(frames, t) == |OfType(buffer, inputs, k, t)|
  {
    var marks := seq(k, i requires 0 <= i < k => frames[i].ethType == t);
    CountIs(frames, t, marks);
    HowManyIs(marks);
    assert Marked(marks) == OfType(buffer, inputs, k, t);
  }

  lemma {:induction false} TypeCounted(frames: seq<Frame>, i: nat)
    requires i < |frames|
    ensures Count(frames, frames[i].ethType) > 0
  {
    if i < |frames| - 1 {
      TypeCounted(frames[..|frames| - 1], i);
    }
  }

  /** A summary of the frames seen is the report on the reads. */
  lemma SummaryReports(printed: seq<Entry>, buffer: seq<byte>, inputs: seq<seq<byte>>, frames: int, k: nat)
    requires |buffer| == RECBUFFER_SIZE && ValidReads(inputs) && StopsAfter(inputs, frames, k)
    requires IsSummary(printed, Seen(buffer, inputs, frames))
    ensures RowsReport(printed, buffer, inputs, k)
  {
    hide FrameAt, Seen, TypeAt, OfType, ReceivedOf;
    var seen := Seen(buffer, inputs, frames);
    SeenFrames(buffer, inputs, frames, k);
    forall e | e in printed
      ensures e.frames == |OfType(buffer, inputs, k, e.ethType)| > 0
      ensures e.bytes == ReceivedOf(buffer, inputs, k, e.ethType) % 0x1_0000_0000
    {
      CountOfType(seen, buffer, inputs, k, e.ethType);
      ReceivedIs(seen, buffer, inputs, k, e.ethType);
    }
    forall i | 0 <= i < k
      ensures HasRow(printed, TypeAt(buffer, inputs, i))
    {
      TypeCounted(seen, i);
      TypeOfFrame(seen[i], buffer, inputs, i);
      assert printed[Find(printed, seen[i].ethType)].ethType == seen[i].ethType;
    }
  }

  lemma TypeOfFrame(f: Frame, buffer: seq<byte>, inputs: seq<seq<byte>>, i: nat)
    requires i < |inputs| && 14 <= |buffer| && FrameAt(f, buffer, inputs, i)
    ensures f.ethType == TypeAt(buffer, inputs, i)
  {
  }

  /** And the three counters are those of the reads. */
  lemma CountersReport(buffer: seq<byte>, inputs: seq<seq<byte>>, frames: int, k: nat, mac: seq<byte>)
    requires |buffer| == RECBUFFER_SIZE && ValidReads(inputs) && StopsAfter(inputs, frames, k)
    ensures var seen := Seen(buffer, inputs, frames);
            && CountTo(seen, mac) == |ToAddress(buffer, inputs, k, mac)|
            && CountMulticast(seen) == |ToGroup(buffer, inputs, k)|
            && Wrap32(TotalOctets(seen)) == Received(inputs, k) % 0x1_0000_0000
  {
    SeenFrames(buffer, inputs, frames, k);
    CountsAre(Seen(buffer, inputs, frames), buffer, inputs, k, mac);
    ReceivedIs(Seen(buffer, inputs, frames), buffer, inputs, k, 0);
  }
}

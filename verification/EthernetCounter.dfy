/** The receive loop that counts frames, and the drain loop that prints and frees the list. */
module EthernetCounter {
  import opened Bytes
  import opened TypeInfoList
  import opened FrameStatistics
  import opened RawFrames
  import opened Sequences

  method MacsEqual(x: array<byte>, y: array<byte>) returns (equal: bool)
    requires x.Length == y.Length == ETH_ALEN
    ensures equal <==> x[..] == y[..]
  {
    for i := 0 to ETH_ALEN
      invariant forall j :: 0 <= j < i ==> x[j] == y[j]
    {
      if x[i] != y[i] {
        return false;
      }
    }
    return true;
  }

  ghost function NodeSet(nodes: seq<Info>): set<Info> {
    set n | n in nodes
  }

  lemma NodesInSet(nodes: seq<Info>)
    ensures forall i :: 0 <= i < |nodes| ==> nodes[i] in NodeSet(nodes)
  {
  }

  lemma NodeSetAppend(nodes: seq<Info>, info: Info)
    ensures NodeSet(nodes + [info]) == NodeSet(nodes) + {info}
    ensures info in NodeSet(nodes) <==> info in nodes
  {
  }

  /** Counts a frame of a type that has a node. */
  method CountAgain(heap: Heap, temp: Info, ret: nat, head: Info?, ghost nodes: seq<Info>, ghost k: nat)
    requires IsList(heap, head, nodes)
    requires k < |nodes| && temp == nodes[k]
    modifies temp`frameCounter, temp`byteCounter
    ensures IsList(heap, head, nodes)
    ensures Rows(nodes) == old(Rows(nodes))[k := Entry(temp.ethType, Wrap32(old(temp.frameCounter) + 1),
                                                       Wrap32(old(temp.byteCounter) + ret))]
  {
    temp.SetCounters(heap, Wrap32(temp.Frames(heap) + 1), Wrap32(temp.Bytes(heap) + ret));
  }

  /** Counts the first frame of a type, in a new node at the end of the list. */
  method CountFirst(heap: Heap, eType: word, ret: nat, infoList: Info?, ghost nodes: seq<Info>)
    returns (newList: Info?, temp: Info)
    requires IsList(heap, infoList, nodes)
    modifies heap, nodes
    ensures fresh(temp) && temp !in NodeSet(nodes)
    ensures IsList(heap, newList, nodes + [temp])
    ensures Rows(nodes + [temp]) == old(Rows(nodes)) + [Entry(eType, 1, Wrap32(ret))]
    ensures NodeSet(nodes + [temp]) == NodeSet(nodes) + {temp}
    ensures heap.live == old(heap.live) + {temp} && heap.freed == old(heap.freed)
  {
    hide Wrap32, NodeSet, Distinct;
    ghost var table := Rows(nodes);
    temp := heap.NewInfo(eType);
    NodeSetAppend(nodes, temp);
    temp.SetCounters(heap, 1, Wrap32(ret));
    assert Rows(nodes + [temp]) == table + [Entry(eType, 1, Wrap32(ret))];
    newList := InsertInfo(heap, temp, infoList, nodes);
  }

  /** Looks the type up and counts the frame, in a new node if the type is new. */
  method RecordFrame(heap: Heap, eType: word, ret: nat, infoList: Info?, ghost nodes: seq<Info>)
    returns (newList: Info?, ghost newNodes: seq<Info>)
    requires IsList(heap, infoList, nodes)
    modifies heap, NodeSet(nodes)
    ensures IsList(heap, newList, newNodes)
    ensures Rows(newNodes) == Record(old(Rows(nodes)), eType, ret)
    ensures NodeSet(nodes) <= NodeSet(newNodes)
    ensures forall n :: n in NodeSet(newNodes) ==> n in NodeSet(nodes) || fresh(n)
    ensures heap.live == old(heap.live) + (NodeSet(newNodes) - NodeSet(nodes))
    ensures heap.freed == old(heap.freed)
  {
    NodesInSet(nodes);
    hide Wrap32, IsList, NodeSet, Find;
    ghost var k := Find(Rows(nodes), eType);
    var temp := GetInfoByType(heap, eType, infoList, nodes);
    if temp == null {
      newList, temp := CountFirst(heap, eType, ret, infoList, nodes);
      newNodes := nodes + [temp];
    } else {
      CountAgain(heap, temp, ret, infoList, nodes, k);
      newList, newNodes := infoList, nodes;
    }
  }

  /** The table of a list, its nodes, and the allocator, at one moment. */
  datatype Snapshot = Snapshot(table: seq<Entry>, nodes: set<Info>, live: set<Info>, freed: set<Info>)

  ghost function Now(heap: Heap, nodes: seq<Info>): Snapshot
    reads heap, nodes
  {
    Snapshot(Rows(nodes), NodeSet(nodes), heap.live, heap.freed)
  }

  /** The snapshot after the row at `k` is removed and its node freed. */
  ghost function Removed(now: Snapshot, k: nat, node: Info): Snapshot
    requires k < |now.table|
  {
    Snapshot(Without(now.table, k), now.nodes - {node}, now.live - {node}, now.freed + {node})
  }

  /** Every row printed is of a smaller type than every row left. */
  predicate Below(printed: seq<Entry>, table: seq<Entry>) {
    forall i, j :: 0 <= i < |printed| && 0 <= j < |table| ==> printed[i].ethType < table[j].ethType
  }

  /**
   The drain loop between its start and now: sorted output so far, a table whose types are
   distinct and all larger, no row lost, and every node that has left the list freed.
   */
  ghost predicate Draining(start: Snapshot, printed: seq<Entry>, now: Snapshot) {
    && Increasing(printed) && DistinctTypes(now.table) && Below(printed, now.table)
    && multiset(printed) + multiset(now.table) == multiset(start.table)
    && now.nodes <= start.nodes
    && now.live == start.live - (start.nodes - now.nodes)
    && now.freed == start.freed + (start.nodes - now.nodes)
  }

  /** The least row of a table of distinct types goes from the table to the end of the output. */
  lemma LeastRowMoves(printed: seq<Entry>, table: seq<Entry>, k: nat)
    requires Increasing(printed) && DistinctTypes(table) && Below(printed, table)
    requires k < |table| && forall i :: 0 <= i < |table| ==> table[k].ethType <= table[i].ethType
    ensures Increasing(printed + [table[k]]) && DistinctTypes(Without(table, k))
    ensures Below(printed + [table[k]], Without(table, k))
    ensures multiset(printed + [table[k]]) + multiset(Without(table, k)) == multiset(printed) + multiset(table)
  {
    MultisetWithout(table, k);
    forall j | 0 <= j < |table| && j != k
      ensures table[k].ethType < table[j].ethType
    {
      assert table[k].ethType != table[j].ethType;
    }
  }

  /** Printing a row of least type and freeing its node keeps the state of the loop. */
  lemma DrainStep(start: Snapshot, printed: seq<Entry>, now: Snapshot, k: nat, node: Info)
    requires Draining(start, printed, now)
    requires k < |now.table| && forall i :: 0 <= i < |now.table| ==> now.table[k].ethType <= now.table[i].ethType
    requires node in now.nodes
    ensures Draining(start, printed + [now.table[k]], Removed(now, k, node))
  {
    hide Increasing, DistinctTypes, Below, Without;
    LeastRowMoves(printed, now.table, k);
  }

  lemma DrainingBegins(heap: Heap, nodes: seq<Info>)
    requires DistinctTypes(Rows(nodes))
    ensures Draining(Now(heap, nodes), [], Now(heap, nodes))
    ensures Now(heap, nodes) == Snapshot(Rows(nodes), NodeSet(nodes), heap.live, heap.freed)
  {
  }

  lemma DrainingDone(start: Snapshot, printed: seq<Entry>, now: Snapshot)
    requires Draining(start, printed, now) && now.table == [] && now.nodes == {}
    ensures Increasing(printed) && multiset(printed) == multiset(start.table)
    ensures now.live == start.live - start.nodes && now.freed == start.freed + start.nodes
  {
  }

  lemma DistinctNodes(heap: Heap, head: Info?, nodes: seq<Info>)
    requires IsList(heap, head, nodes)
    ensures Distinct(nodes)
  {
  }

  lemma NodeSetWithout(heap: Heap, head: Info?, nodes: seq<Info>, k: nat)
    requires IsList(heap, head, nodes) && k < |nodes|
    ensures nodes[k] in NodeSet(nodes)
    ensures NodeSet(Without(nodes, k)) == NodeSet(nodes) - {nodes[k]}
  {
    hide IsList;
    DistinctNodes(heap, head, nodes);
    var left := Without(nodes, k);
    forall n
      ensures n in left <==> n in nodes && n != nodes[k]
    {
      if n in nodes && n != nodes[k] {
        var i :| 0 <= i < |nodes| && nodes[i] == n;
        assert left[if i < k then i else i - 1] == n;
      }
    }
  }

  lemma RowsWithout(nodes: seq<Info>, k: nat, table: seq<Entry>)
    requires k < |nodes| && Rows(nodes) == table
    ensures Rows(Without(nodes, k)) == Without(table, k)
  {
  }

  lemma NodesOfWithout(before: seq<Info>, k: nat, nodes: seq<Info>)
    requires k < |before| && forall i :: 0 <= i < |before| ==> before[i] in nodes
    ensures forall i :: 0 <= i < |Without(before, k)| ==> Without(before, k)[i] in nodes
  {
  }

  lemma EmptyList(heap: Heap, nodes: seq<Info>)
    requires IsList(heap, null, nodes)
    ensures Now(heap, nodes) == Snapshot([], {}, heap.live, heap.freed)
  {
  }

  /** One turn of the drain loop. */
  method PrintLeast(heap: Heap, head: Info, ghost nodes: seq<Info>)
    returns (row: Entry, newHead: Info?, ghost left: seq<Info>, ghost k: nat)
    requires IsList(heap, head, nodes)
    modifies heap, nodes
    ensures k < |nodes| && left == Without(nodes, k) && nodes[k] in old(Now(heap, nodes)).nodes
    ensures var table := old(Now(heap, nodes)).table;
            k < |table| && row == table[k] && forall i :: 0 <= i < |table| ==> table[k].ethType <= table[i].ethType
    ensures IsList(heap, newHead, left)
    ensures Now(heap, left) == Removed(old(Now(heap, nodes)), k, nodes[k])
  {
    hide IsList, Distinct, Without, NodeSet;
    var temp;
    temp, k := Min(heap, head, nodes);
    NodeSetWithout(heap, head, nodes, k);
    row := Entry(temp.Type(heap), temp.Frames(heap), temp.Bytes(heap));
    FindUnique(Rows(nodes), temp.Type(heap), k);
    ghost var table := Rows(nodes);
    newHead, left := RemoveByType(heap, temp.Type(heap), head, nodes);
    RowsWithout(nodes, k, table);
  }

  /**
   The drain loop. It prints the rows in strictly increasing order of type, each once, and
   frees every node of the list exactly once.
   */
  method Drain(heap: Heap, head: Info?, ghost nodes: seq<Info>) returns (printed: seq<Entry>)
    requires IsList(heap, head, nodes)
    requires DistinctTypes(Rows(nodes))
    modifies heap, nodes
    ensures Increasing(printed)
    ensures multiset(printed) == multiset(old(Rows(nodes)))
    ensures heap.live == old(heap.live) - NodeSet(nodes)
    ensures heap.freed == old(heap.freed) + NodeSet(nodes)
  {
    hide Draining, IsList, Rows, NodeSet, Increasing, DistinctTypes, Without, Distinct, Successor, Removed, Now;
    var infoList := head;
    ghost var left := nodes;
    ghost var start := Now(heap, nodes);
    printed := [];
    DrainingBegins(heap, nodes);
    while infoList != null
      invariant IsList(heap, infoList, left)
      invariant Draining(start, printed, Now(heap, left))
      invariant forall i :: 0 <= i < |left| ==> left[i] in nodes
      decreases |left|
    {
      ghost var now, before := Now(heap, left), left;
      var row;
      ghost var k;
      row, infoList, left, k := PrintLeast(heap, infoList, left);
      DrainStep(start, printed, now, k, before[k]);
      printed := printed + [row];
      NodesOfWithout(before, k, nodes);
    }
    EmptyList(heap, left);
    DrainingDone(start, printed, Now(heap, left));
  }

  /** A correct table, rearranged into increasing order, is the summary. */
  lemma SortedTableIsSummary(printed: seq<Entry>, frames: seq<Frame>)
    requires |frames| < TWO32
    requires Increasing(printed) && multiset(printed) == multiset(Table(frames))
    ensures IsSummary(printed, frames)
  {
    TableCorrect(frames);
    var table := Table(frames);
    assert forall e :: e in printed <==> e in multiset(printed);
    assert forall e :: e in table <==> e in multiset(table);
    forall t: word | Count(frames, t) > 0
      ensures Find(printed, t) < |printed|
    {
      var k := Find(table, t);
      assert table[k] in table;
      assert table[k] in printed;
      var j :| 0 <= j < |printed| && printed[j] == table[k];
    }
  }

  // ---- The receive loop ---------------------------------------------------------------------

  /** The counters after the frames `seen`. */
  ghost predicate Counted(seen: seq<Frame>, mac: seq<byte>, table: seq<Entry>,
                          myFrames: nat, multiCastFrames: nat, totalByte: nat)
  {
    && table == Table(seen)
    && myFrames == CountTo(seen, mac) && multiCastFrames == CountMulticast(seen)
    && totalByte == Wrap32(TotalOctets(seen))
  }

  lemma CountOneMore(seen: seq<Frame>, f: Frame, mac: seq<byte>, table: seq<Entry>,
                     myFrames: nat, multiCastFrames: nat, totalByte: nat)
    requires |seen| + 1 < TWO32
    requires Counted(seen, mac, table, myFrames, multiCastFrames, totalByte)
    ensures Counted(seen + [f], mac, Record(table, f.ethType, f.length),
                    Wrap32(if f.destination == mac then myFrames + 1 else myFrames),
                    Wrap32(if Multicast(f.destination) then multiCastFrames + 1 else multiCastFrames),
                    Wrap32(totalByte + f.length))
  {
    hide Wrap32, Record;
    var after := seen + [f];
    assert after[..|after| - 1] == seen;
    WrapAdd(TotalOctets(seen), f.length);
    WrapSmall(CountTo(after, mac));
    WrapSmall(CountMulticast(after));
  }

  /** The loop's list, next to what the allocator held before it. */
  ghost predicate Owned(heap: Heap, head: Info?, nodes: seq<Info>, live: set<Info>, freed: set<Info>)
    reads heap, nodes
  {
    IsList(heap, head, nodes) && heap.live == live + NodeSet(nodes) && heap.freed == freed
  }

  /** The body of the loop: type and destination are taken from the buffer, then counted. */
  method CountFrame(heap: Heap, mymac: array<byte>, mac: array<byte>, recbuffer: array<byte>, ret: nat,
                    infoList: Info?, ghost nodes: seq<Info>, myFrames: nat, multiCastFrames: nat, totalByte: nat,
                    ghost seen: seq<Frame>, ghost live: set<Info>, ghost freed: set<Info>)
    returns (newList: Info?, ghost newNodes: seq<Info>, mine: nat, multicast: nat, total: nat)
    requires mymac.Length == mac.Length == ETH_ALEN && recbuffer.Length == RECBUFFER_SIZE
    requires mac != mymac && mac != recbuffer
    requires Owned(heap, infoList, nodes, live, freed)
    requires |seen| + 1 < TWO32
    requires Counted(seen, mymac[..], Rows(nodes), myFrames, multiCastFrames, totalByte)
    modifies heap, NodeSet(nodes), mac
    ensures Owned(heap, newList, newNodes, live, freed)
    ensures forall n :: n in NodeSet(newNodes) ==> n in NodeSet(nodes) || fresh(n)
    ensures Counted(seen + [FrameIn(old(recbuffer[..]), ret)], old(mymac[..]), Rows(newNodes), mine, multicast, total)
  {
    hide IsList, Rows, NodeSet, Record, Wrap32, Counted, Multicast;
    ghost var f, own, table := FrameIn(recbuffer[..], ret), mymac[..], Rows(nodes);
    CountOneMore(seen, f, own, table, myFrames, multiCastFrames, totalByte);
    var eType := Word(recbuffer[2 * ETH_ALEN], recbuffer[2 * ETH_ALEN + 1]);
    assert f.ethType == eType && f.length == ret;
    forall i | 0 <= i < ETH_ALEN {
      mac[i] := recbuffer[i];
    }
    assert mac[..] == f.destination && Rows(nodes) == table;
    newList, newNodes := RecordFrame(heap, eType, ret, infoList, nodes);
    assert Rows(newNodes) == Record(table, f.ethType, f.length);
    assert mac[..] == f.destination && mymac[..] == own;
    var equal := MacsEqual(mymac, mac);
    MulticastBit(mac[..]);
    mine := Wrap32(if equal then myFrames + 1 else myFrames);
    multicast := Wrap32(if mac[0] % 2 == 1 then multiCastFrames + 1 else multiCastFrames);
    total := Wrap32(totalByte + ret);
    assert mac[0] == mac[..][0];
  }

  lemma MulticastBit(mac: seq<byte>)
    requires mac != []
    ensures Multicast(mac) <==> mac[0] % 2 == 1
  {
  }

  /** A read into the buffer, or a timeout. */
  method ReadFrame(recbuffer: array<byte>, inputs: seq<seq<byte>>) returns (ret: nat)
    requires recbuffer.Length == RECBUFFER_SIZE
    requires ValidReads(inputs)
    modifies recbuffer
    ensures ret == 0 <==> inputs == [] || inputs[0] == []
    ensures ret > 0 ==> ret == |inputs[0]| && recbuffer[..] == Overlay(old(recbuffer[..]), inputs[0])
  {
    ret := if inputs == [] then 0 else |inputs[0]|;
    if ret > 0 {
      forall j | 0 <= j < ret {
        recbuffer[j] := inputs[0][j];
      }
    }
  }

  /** The counters and the list of the receive loop. */
  datatype Counters = Counters(infoList: Info?, myFrames: nat, multiCastFrames: nat, totalByte: nat)

  /** The loop between two frames: `seen` is counted, and the rest of `all` is still to come. */
  ghost predicate Receiving(heap: Heap, nodes: seq<Info>, c: Counters, live: set<Info>, freed: set<Info>,
                            own: seq<byte>, all: seq<Frame>, seen: seq<Frame>, coming: seq<Frame>)
    reads heap, nodes
  {
    && Owned(heap, c.infoList, nodes, live, freed)
    && Counted(seen, own, Rows(nodes), c.myFrames, c.multiCastFrames, c.totalByte)
    && all == seen + coming
  }

  /** One turn of the receive loop: a timeout, or one more frame counted. */
  method ReceiveFrame(heap: Heap, mymac: array<byte>, mac: array<byte>, recbuffer: array<byte>,
                      inputs: seq<seq<byte>>, c: Counters, ghost nodes: seq<Info>, ghost n: int,
                      ghost live: set<Info>, ghost freed: set<Info>, ghost all: seq<Frame>, ghost seen: seq<Frame>)
    returns (more: bool, d: Counters, ghost newNodes: seq<Info>, ghost f: Frame)
    requires mymac.Length == mac.Length == ETH_ALEN && recbuffer.Length == RECBUFFER_SIZE
    requires mac != mymac && mac != recbuffer && mymac != recbuffer
    requires ValidReads(inputs) && n > 0 && |seen| + 1 < TWO32
    requires Receiving(heap, nodes, c, live, freed, mymac[..], all, seen, Seen(recbuffer[..], inputs, n))
    modifies heap, NodeSet(nodes), mac, recbuffer
    ensures mymac[..] == old(mymac[..])
    ensures forall n :: n in NodeSet(newNodes) ==> n in NodeSet(nodes) || fresh(n)
    ensures if more then
              && inputs != [] && ValidReads(inputs[1..])
              && Receiving(heap, newNodes, d, live, freed, mymac[..], all, seen + [f],
                           Seen(recbuffer[..], inputs[1..], n - 1))
            else
              Receiving(heap, newNodes, d, live, freed, mymac[..], all, seen, [])
  {
    ghost var table, own, before := Rows(nodes), mymac[..], recbuffer[..];
    hide Counted, IsList, Rows, NodeSet, FrameIn, Overlay;
    d, newNodes := c, nodes;
    var ret := ReadFrame(recbuffer, inputs);
    f := FrameIn(recbuffer[..], ret);
    assert Rows(nodes) == table && mymac[..] == own;
    more := ret != 0;
    if more {
      SeenStep(seen, before, inputs, n);
      var infoList, myFrames, multiCastFrames, totalByte;
      infoList, newNodes, myFrames, multiCastFrames, totalByte :=
        CountFrame(heap, mymac, mac, recbuffer, ret, c.infoList, nodes, c.myFrames, c.multiCastFrames, c.totalByte,
                   seen, live, freed);
      d := Counters(infoList, myFrames, multiCastFrames, totalByte);
    }
  }

  /**
   The receive loop. It stops after `frames` frames or at the first timeout, with the table
   of the frames seen in a list of nodes that it allocated.
   */
  method ReceiveFrames(heap: Heap, mymac: array<byte>, frames: int, inputs: seq<seq<byte>>, recbuffer: array<byte>)
    returns (c: Counters, ghost nodes: seq<Info>)
    requires mymac.Length == ETH_ALEN && recbuffer.Length == RECBUFFER_SIZE && mymac != recbuffer
    requires frames < 0x8000_0000
    requires ValidReads(inputs)
    modifies heap, recbuffer
    ensures forall n :: n in NodeSet(nodes) ==> fresh(n)
    ensures var seen := Seen(old(recbuffer[..]), inputs, frames);
            Receiving(heap, nodes, c, old(heap.live), old(heap.freed), mymac[..], seen, seen, [])
  {
    hide Receiving, Seen, ValidReads, NodeSet;
    c, nodes := Counters(null, 0, 0, 0), [];
    var mac := new byte[ETH_ALEN](_ => 0);
    ghost var own, seen, live, freed := mymac[..], [], heap.live, heap.freed;
    ghost var all := Seen(recbuffer[..], inputs, frames);
    ghost var coming := all;
    var rest := inputs;
    var i := 0;
    ReceivingBegins(heap, own, all);
    while i < frames
      invariant 0 <= i == |seen| && ValidReads(rest)
      invariant coming == Seen(recbuffer[..], rest, frames - i)
      invariant mymac[..] == own
      invariant Receiving(heap, nodes, c, live, freed, own, all, seen, coming)
      invariant forall n :: n in NodeSet(nodes) ==> fresh(n)
    {
      var more;
      ghost var f;
      more, c, nodes, f := ReceiveFrame(heap, mymac, mac, recbuffer, rest, c, nodes, frames - i,
                                        live, freed, all, seen);
      if !more {
        coming := [];
        break;
      }
      seen := seen + [f];
      rest := rest[1..];
      i := i + 1;
      coming := Seen(recbuffer[..], rest, frames - i);
    }
    if i >= frames {
      SeenNone(recbuffer[..], rest, frames - i);
    }
    ReceivingEnds(heap, nodes, c, live, freed, own, all, seen);
  }

  lemma ReceivingBegins(heap: Heap, own: seq<byte>, all: seq<Frame>)
    ensures Receiving(heap, [], Counters(null, 0, 0, 0), heap.live, heap.freed, own, all, [], all)
    ensures NodeSet([]) == {}
  {
  }

  lemma ReceivingEnds(heap: Heap, nodes: seq<Info>, c: Counters, live: set<Info>, freed: set<Info>,
                      own: seq<byte>, all: seq<Frame>, seen: seq<Frame>)
    requires Receiving(heap, nodes, c, live, freed, own, all, seen, [])
    ensures Receiving(heap, nodes, c, live, freed, own, all, all, [])
  {
    assert all == seen + [] == seen && all == all + [];
  }

  lemma SeenNone(buffer: seq<byte>, inputs: seq<seq<byte>>, n: int)
    requires |buffer| == RECBUFFER_SIZE && ValidReads(inputs) && n <= 0
    ensures Seen(buffer, inputs, n) == []
  {
  }

  lemma SeenStep(seen: seq<Frame>, buffer: seq<byte>, inputs: seq<seq<byte>>, n: int)
    requires |buffer| == RECBUFFER_SIZE && n > 0
    requires ValidReads(inputs)
    requires inputs != [] && inputs[0] != []
    ensures ValidReads(inputs[1..])
    ensures var after := Overlay(buffer, inputs[0]);
            seen + Seen(buffer, inputs, n)
            == (seen + [FrameIn(after, |inputs[0]|)]) + Seen(after, inputs[1..], n - 1)
  {
    var after := Overlay(buffer, inputs[0]);
    assert Seen(buffer, inputs, n) == [FrameIn(after, |inputs[0]|)] + Seen(after, inputs[1..], n - 1);
  }

  /**
   The program: the rows printed are the sorted group-by of the frames received, the
   counts of own and multicast frames are exact, and every node allocated on the way has
   been freed, exactly once.
   */
  method Assignment2(heap: Heap, mymac: array<byte>, frames: int, inputs: seq<seq<byte>>, recbuffer: array<byte>)
    returns (printed: seq<Entry>, myFrames: nat, multiCastFrames: nat, totalByte: nat)
    requires mymac.Length == 6 && recbuffer.Length == 1514 && mymac != recbuffer
    requires frames < 0x8000_0000
    requires forall r :: r in inputs ==> |r| <= 1514
    modifies heap, recbuffer
    ensures var seen := Seen(old(recbuffer[..]), inputs, frames);
            && IsSummary(printed, seen)
            && myFrames == CountTo(seen, mymac[..]) && multiCastFrames == CountMulticast(seen)
            && totalByte == Wrap32(TotalOctets(seen))
    ensures forall k: nat :: StopsAfter(inputs, frames, k) ==>
              && RowsReport(printed, old(recbuffer[..]), inputs, k)
              && myFrames == |ToAddress(old(recbuffer[..]), inputs, k, mymac[..])|
              && multiCastFrames == |ToGroup(old(recbuffer[..]), inputs, k)|
              && totalByte == Received(inputs, k) % 0x1_0000_0000
    ensures heap.live == old(heap.live)
    ensures forall n :: n in heap.freed - old(heap.freed) ==> fresh(n)
  {
    hide RowsReport, ToAddress, ToGroup, Received, Wrap32;
    ghost var nodes;
    ghost var buffer := recbuffer[..];
    ghost var seen := Seen(buffer, inputs, frames);
    var c;
    c, nodes := ReceiveFrames(heap, mymac, frames, inputs, recbuffer);
    myFrames, multiCastFrames, totalByte := c.myFrames, c.multiCastFrames, c.totalByte;
    TableCorrect(seen);
    printed := Drain(heap, c.infoList, nodes);
    SortedTableIsSummary(printed, seen);
    forall k: nat | StopsAfter(inputs, frames, k)
      ensures RowsReport(printed, buffer, inputs, k)
      ensures CountTo(seen, mymac[..]) == |ToAddress(buffer, inputs, k, mymac[..])|
      ensures CountMulticast(seen) == |ToGroup(buffer, inputs, k)|
      ensures Wrap32(TotalOctets(seen)) == Received(inputs, k) % 0x1_0000_0000
    {
      SummaryReports(printed, buffer, inputs, frames, k);
      CountersReport(buffer, inputs, frames, k, mymac[..]);
    }
  }
}

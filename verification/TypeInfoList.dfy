/** The singly linked list that maps EtherTypes to counters, on an explicit heap. */
module TypeInfoList {
  import opened Bytes
  import opened Sequences

  /** What a node records: a row of the summary. */
  datatype Entry = Entry(ethType: word, frames: nat, bytes: nat)

  class Info {
    const ethType: word
    var frameCounter: nat
    var byteCounter: nat
    var next: Info?

    constructor (ethType: word)
      ensures this.ethType == ethType && frameCounter == 0 && byteCounter == 0 && next == null
    {
      this.ethType := ethType;
      frameCounter, byteCounter, next := 0, 0, null;
    }

    function Row(): Entry
      reads this
    {
      Entry(ethType, frameCounter, byteCounter)
    }

    // Every access below goes through these, so that none can follow a `Free`.

    function Type(heap: Heap): word
      requires this in heap.live
      reads heap
    {
      ethType
    }

    function Frames(heap: Heap): nat
      requires this in heap.live
      reads this, heap
    {
      frameCounter
    }

    function Bytes(heap: Heap): nat
      requires this in heap.live
      reads this, heap
    {
      byteCounter
    }

    function Next(heap: Heap): Info?
      requires this in heap.live
      reads this, heap
    {
      next
    }

    method SetNext(heap: Heap, info: Info?)
      requires this in heap.live
      modifies this`next
      ensures next == info
    {
      next := info;
    }

    method SetCounters(heap: Heap, frames: nat, bytes: nat)
      requires this in heap.live
      modifies this`frameCounter, this`byteCounter
      ensures frameCounter == frames && byteCounter == bytes
    {
      frameCounter, byteCounter := frames, bytes;
    }
  }

  /** The allocator: which nodes may be accessed, and which have been given back. */
  class Heap {
    ghost var live: set<Info>
    ghost var freed: set<Info>

    constructor ()
      ensures live == {} && freed == {}
    {
      live, freed := {}, {};
    }

    method NewInfo(ethType: word) returns (info: Info)
      modifies this
      ensures fresh(info) && info.Row() == Entry(ethType, 0, 0) && info.next == null
      ensures live == old(live) + {info} && freed == old(freed)
    {
      info := new Info(ethType);
      live := live + {info};
    }

    /** A node can be freed only while it is live, hence once. */
    method Free(info: Info)
      requires info in live
      modifies this
      ensures live == old(live) - {info} && freed == old(freed) + {info}
    {
      live := live - {info};
      freed := freed + {info};
    }
  }

  // ---- Lists --------------------------------------------------------------------------------

  ghost function Successor(nodes: seq<Info>, i: nat): Info?
    requires i < |nodes|
  {
    if i + 1 < |nodes| then nodes[i + 1] else null
  }

  ghost predicate Distinct(nodes: seq<Info>) {
    forall i, j :: 0 <= i < j < |nodes| ==> nodes[i] != nodes[j]
  }

  /** `head` starts the acyclic list of exactly these nodes, all of them live. */
  ghost predicate IsList(heap: Heap, head: Info?, nodes: seq<Info>)
    reads heap, nodes
  {
    && head == (if nodes == [] then null else nodes[0])
    && Distinct(nodes)
    && (forall i :: 0 <= i < |nodes| ==> nodes[i] in heap.live)
    && (forall i :: 0 <= i < |nodes| ==> nodes[i].next == Successor(nodes, i))
  }

  ghost function Rows(nodes: seq<Info>): (rows: seq<Entry>)
    reads nodes
    ensures |rows| == |nodes|
    ensures forall i :: 0 <= i < |nodes| ==> rows[i] == nodes[i].Row()
  {
    seq(|nodes|, i requires 0 <= i < |nodes| reads nodes => nodes[i].Row())
  }

  /** The position of the first row of a type, or the length if there is none. */
  function Find(rows: seq<Entry>, ethType: word): (k: nat)
    ensures k <= |rows|
    ensures k < |rows| ==> rows[k].ethType == ethType
    ensures forall i :: 0 <= i < k ==> rows[i].ethType != ethType
  {
    if rows == [] || rows[0].ethType == ethType then 0 else 1 + Find(rows[1..], ethType)
  }

  lemma FindUnique(rows: seq<Entry>, ethType: word, k: nat)
    requires k <= |rows|
    requires k < |rows| ==> rows[k].ethType == ethType
    requires forall i :: 0 <= i < k ==> rows[i].ethType != ethType
    ensures Find(rows, ethType) == k
  {
  }

  /** The first node of a type. */
  method GetInfoByType(heap: Heap, ethType: word, head: Info?, ghost nodes: seq<Info>) returns (temp: Info?)
    requires IsList(heap, head, nodes)
    ensures var k := Find(Rows(nodes), ethType);
            temp == if k < |nodes| then nodes[k] else null
  {
    temp := head;
    ghost var k := 0;
    while temp != null && temp.Type(heap) != ethType
      invariant 0 <= k <= |nodes|
      invariant temp == if k < |nodes| then nodes[k] else null
      invariant forall i :: 0 <= i < k ==> nodes[i].ethType != ethType
      decreases |nodes| - k
    {
      temp := temp.Next(heap);
      k := k + 1;
    }
    FindUnique(Rows(nodes), ethType, k);
  }

  /** Insertion appends. */
  method InsertInfo(heap: Heap, info: Info, head: Info?, ghost nodes: seq<Info>) returns (newHead: Info?)
    requires IsList(heap, head, nodes)
    requires info in heap.live && info !in nodes && info.next == null
    modifies nodes
    ensures IsList(heap, newHead, nodes + [info])
    ensures Rows(nodes + [info]) == old(Rows(nodes + [info]))
  {
    if head == null {
      return info;
    }
    var temp := head;
    ghost var k := 0;
    while temp.Next(heap) != null
      invariant 0 <= k < |nodes|
      invariant temp == nodes[k]
      decreases |nodes| - k
    {
      temp := temp.Next(heap);
      k := k + 1;
    }
    temp.SetNext(heap, info);
    newHead := head;
    assert Rows(nodes + [info]) == old(Rows(nodes + [info]));
  }

  lemma DistinctWithout(nodes: seq<Info>, k: nat)
    requires k < |nodes| && Distinct(nodes)
    ensures Distinct(Without(nodes, k))
  {
  }

  /** With the node before `k` linked past it, the remaining nodes are a list again. */
  lemma UnlinkedIsList(heap: Heap, head: Info?, nodes: seq<Info>, k: nat)
    requires k < |nodes| && Distinct(nodes)
    requires forall i :: 0 <= i < |nodes| && i != k ==> nodes[i] in heap.live
    requires forall i :: 0 <= i < |nodes| && i + 1 != k && i != k ==> nodes[i].next == Successor(nodes, i)
    requires k > 0 ==> nodes[k - 1].next == Successor(nodes, k)
    requires head == if k > 0 then nodes[0] else Successor(nodes, 0)
    ensures IsList(heap, head, Without(nodes, k))
  {
    hide Distinct;
    DistinctWithout(nodes, k);
    var left := Without(nodes, k);
    forall i | 0 <= i < |left|
      ensures left[i].next == Successor(left, i)
    {
      var j := if i < k then i else i + 1;
      assert left[i] == nodes[j];
    }
  }

  /** The last node before the first one of the type, or the last node of all. */
  method NodeBefore(heap: Heap, ethType: word, head: Info, ghost nodes: seq<Info>) returns (temp: Info, ghost k: nat)
    requires IsList(heap, head, nodes)
    requires head.ethType != ethType
    ensures k < |nodes| && temp == nodes[k] && temp in heap.live && temp.next == Successor(nodes, k)
    ensures forall i :: 0 <= i <= k ==> nodes[i].ethType != ethType
    ensures k + 1 < |nodes| ==> nodes[k + 1].ethType == ethType
  {
    temp := head;
    k := 0;
    while temp.Next(heap) != null && temp.Next(heap).Type(heap) != ethType
      invariant 0 <= k < |nodes|
      invariant temp == nodes[k]
      invariant forall i :: 0 <= i <= k ==> nodes[i].ethType != ethType
      decreases |nodes| - k
    {
      assert temp.Next(heap) == nodes[k].next == Successor(nodes, k) == nodes[k + 1];
      temp := temp.Next(heap);
      k := k + 1;
    }
    assert temp.Next(heap) == Successor(nodes, k);
  }

  /** Frees the first node; the list goes on behind it. */
  method RemoveFirst(heap: Heap, head: Info, ghost nodes: seq<Info>) returns (newHead: Info?)
    requires IsList(heap, head, nodes)
    modifies heap
    ensures Rows(nodes) == old(Rows(nodes))
    ensures nodes != [] && IsList(heap, newHead, Without(nodes, 0))
    ensures heap.live == old(heap.live) - {nodes[0]} && heap.freed == old(heap.freed) + {nodes[0]}
  {
    newHead := head.Next(heap);
    heap.Free(head);
    UnlinkedIsList(heap, newHead, nodes, 0);
  }

  /** Links a node past its successor and frees that. */
  method RemoveNext(heap: Heap, head: Info, temp: Info, ghost nodes: seq<Info>, ghost k: nat)
    requires IsList(heap, head, nodes)
    requires k + 1 < |nodes| && temp == nodes[k]
    modifies temp`next, heap
    ensures Rows(nodes) == old(Rows(nodes))
    ensures IsList(heap, head, Without(nodes, k + 1))
    ensures heap.live == old(heap.live) - {nodes[k + 1]} && heap.freed == old(heap.freed) + {nodes[k + 1]}
  {
    hide Without, Rows;
    ghost var rows := Rows(nodes);
    var t := temp.Next(heap);
    assert t == nodes[k + 1];
    temp.SetNext(heap, t.Next(heap));
    heap.Free(t);
    assert Rows(nodes) == rows;
    UnlinkedIsList(heap, head, nodes, k + 1);
  }

  lemma HeadOfList(heap: Heap, head: Info?, nodes: seq<Info>)
    requires IsList(heap, head, nodes)
    ensures head == null <==> nodes == []
    ensures head != null ==> head == nodes[0] && head in heap.live
  {
  }

  /** Removal unlinks and frees the first node of the type and keeps the order of the rest. */
  method RemoveByType(heap: Heap, ethType: word, head: Info?, ghost nodes: seq<Info>)
    returns (newHead: Info?, ghost left: seq<Info>)
    requires IsList(heap, head, nodes)
    modifies nodes, heap
    ensures var k := Find(old(Rows(nodes)), ethType);
            if k < |nodes| then
              && left == Without(nodes, k)
              && heap.live == old(heap.live) - {nodes[k]} && heap.freed == old(heap.freed) + {nodes[k]}
            else
              && left == nodes
              && heap.live == old(heap.live) && heap.freed == old(heap.freed)
    ensures IsList(heap, newHead, left)
    ensures Rows(nodes) == old(Rows(nodes))
  {
    hide IsList, Rows, Find, Without, Distinct;
    HeadOfList(heap, head, nodes);
    ghost var rows := Rows(nodes);
    newHead, left := head, nodes;
    if head == null {
      return;
    }
    if head.Type(heap) == ethType {
      FindUnique(rows, ethType, 0);
      newHead := RemoveFirst(heap, head, nodes);
      left := Without(nodes, 0);
      return;
    }
    var temp;
    ghost var k;
    temp, k := NodeBefore(heap, ethType, head, nodes);
    FindUnique(rows, ethType, k + 1);
    if temp.Next(heap) != null {
      RemoveNext(heap, head, temp, nodes, k);
      left := Without(nodes, k + 1);
    }
  }

  /** A node of least type, the first of them. */
  method Min(heap: Heap, head: Info?, ghost nodes: seq<Info>) returns (cur: Info?, ghost k: nat)
    requires IsList(heap, head, nodes)
    ensures nodes == [] <==> head == null
    ensures nodes == [] ==> cur == null
    ensures nodes != [] ==>
              && k < |nodes| && cur == nodes[k] && cur in heap.live
              && (forall i :: 0 <= i < |nodes| ==> nodes[k].ethType <= nodes[i].ethType)
              && (forall i :: 0 <= i < k ==> nodes[k].ethType < nodes[i].ethType)
  {
    hide Distinct;
    cur := head;
    k := 0;
    var temp := head;
    ghost var n := 0;
    while temp != null
      invariant 0 <= n <= |nodes|
      invariant temp == if n < |nodes| then nodes[n] else null
      invariant nodes != [] ==>
                  && k < |nodes| && cur == nodes[k]
                  && (forall i :: 0 <= i < n ==> nodes[k].ethType <= nodes[i].ethType)
                  && (forall i :: 0 <= i < k ==> nodes[k].ethType < nodes[i].ethType)
      invariant nodes == [] ==> cur == null
      invariant k == 0 || k < n
      decreases |nodes| - n
    {
      if temp.Type(heap) < cur.Type(heap) {
        cur := temp;
        k := n;
      }
      temp := temp.Next(heap);
      n := n + 1;
    }
  }
}

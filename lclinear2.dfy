/**
 * Model of the loading side of LC_Linear2_Graph
 * (include/Galois/Graphs/LCGraph.h): distribute cuts the node ids 0 .. n-1
 * into one consecutive range per thread of roughly equal byte size, and
 * AllocateNodes lays out each thread's range in a block of its own, with
 * the NodeInfo arithmetic of NodeLayout.
 *
 * The file graph is read through its out-index sequence idx: node i has
 * Csr.Degree(idx, i) neighbours and the graph has Csr.Offset(idx, |idx|)
 * edges. Byte counts are unbounded naturals.
 */
module LCLinear2Graph {
  import Csr
  import opened NodeLayout

  /** The range of node ids one thread loads, with its node and edge counts. */
  datatype DistributeInfo = DistributeInfo(numNodes: nat, numEdges: nat, begin: nat, end: nat)

  /** A thread's block: its header, the first NodeInfo and one past the last. */
  datatype Header = Header(begin: nat, end: nat, size: nat)

  /** Offsets never decrease along an ordered out-index sequence. */
  lemma {:induction false} OffsetMonotone(idx: seq<nat>, i: nat, j: nat)
    requires Csr.Ordered(idx) && i <= j <= |idx|
    ensures Csr.Offset(idx, i) <= Csr.Offset(idx, j)
    decreases j - i
  {
    if i < j {
      assert Csr.Offset(idx, i) <= idx[i] == Csr.Offset(idx, i + 1);
      OffsetMonotone(idx, i + 1, j);
    }
  }

  /** The bytes of nodes 0 .. i-1, sizeof(NodeInfo) plus sizeof(EdgeInfo)
      per neighbour for each: the value curSize has when the scan reaches
      node i. */
  function Bytes(s: Sizes, idx: seq<nat>, i: nat): nat
    requires Csr.Ordered(idx) && i <= |idx|
  {
    if i == 0 then 0
    else
      NatProduct(s.edge, Csr.Degree(idx, i - 1));
      Bytes(s, idx, i - 1) + s.node + s.edge * Csr.Degree(idx, i - 1)
  }

  /** The bytes of nodes 0 .. i-1 are i NodeInfo records and one EdgeInfo
      per edge before node i; for i = n, the total distribute divides. */
  lemma {:induction false} BytesClosedForm(s: Sizes, idx: seq<nat>, i: nat)
    requires Csr.Ordered(idx) && i <= |idx|
    ensures Bytes(s, idx, i) == s.node * i + s.edge * Csr.Offset(idx, i)
  {
    if i > 0 {
      var o, k := Csr.Offset(idx, i - 1), Csr.Degree(idx, i - 1);
      BytesClosedForm(s, idx, i - 1);
      assert Bytes(s, idx, i) == Bytes(s, idx, i - 1) + s.node + s.edge * k;
      MulAdd(s.node, i - 1, 1);
      MulAdd(s.edge, o, k);
    }
  }

  lemma MulAdd(d: nat, p: nat, q: nat)
    ensures d * (p + q) == d * p + d * q
  {
  }

  lemma NatProduct(a: nat, b: nat)
    ensures a * b >= 0
  {
  }

  /** blockSize: the byte total divided evenly among num threads, rounded down. */
  function BlockShare(s: Sizes, idx: seq<nat>, num: nat): nat
    requires num >= 1
  {
    (s.node * |idx| + s.edge * Csr.Offset(idx, |idx|)) / num
  }

  /** blockSize is the floor of the byte total over num: num blocks of
      it fit in the total, and num more would not. */
  lemma BlockShareDivides(s: Sizes, idx: seq<nat>, num: nat)
    requires num >= 1
    ensures BlockShare(s, idx, num) * num <= s.node * |idx| + s.edge * Csr.Offset(idx, |idx|)
    ensures s.node * |idx| + s.edge * Csr.Offset(idx, |idx|) < (BlockShare(s, idx, num) + 1) * num
  {
    var total := s.node * |idx| + s.edge * Csr.Offset(idx, |idx|);
    assert total == BlockShare(s, idx, num) * num + total % num;
  }

  /** The size the first tid + 1 ranges should together reach. */
  function Threshold(s: Sizes, idx: seq<nat>, num: nat, tid: nat): nat
    requires num >= 1
  {
    (tid + 1) * BlockShare(s, idx, num)
  }

  /** The first node at or after c at which the bytes before it reach thr,
      or n when there is none. */
  function FirstReach(s: Sizes, idx: seq<nat>, thr: nat, c: nat): (r: nat)
    requires Csr.Ordered(idx) && c <= |idx|
    ensures c <= r <= |idx|
    ensures r < |idx| ==> Bytes(s, idx, r) >= thr
    decreases |idx| - c
  {
    if c == |idx| then |idx|
    else if Bytes(s, idx, c) >= thr then c
    else FirstReach(s, idx, thr, c + 1)
  }

  /** No node between c and FirstReach has reached thr: the range closes
      at the first node that does. */
  lemma {:induction false} FirstReachIsFirst(s: Sizes, idx: seq<nat>, thr: nat, c: nat, i: nat)
    requires Csr.Ordered(idx) && c <= |idx| && c <= i < FirstReach(s, idx, thr, c)
    ensures Bytes(s, idx, i) < thr
    decreases |idx| - c
  {
    if c < i {
      FirstReachIsFirst(s, idx, thr, c + 1, i);
    }
  }

  /** Where the scan stands when thread tid starts. */
  function Pos(s: Sizes, idx: seq<nat>, num: nat, tid: nat): (r: nat)
    requires Csr.Ordered(idx) && num >= 1
    ensures r <= |idx|
  {
    if tid == 0 then 0 else FirstReach(s, idx, Threshold(s, idx, num, tid - 1), Pos(s, idx, num, tid - 1))
  }

  /** Thread tid's range closes before the end of the nodes, so its slot
      is written. */
  predicate Closes(s: Sizes, idx: seq<nat>, num: nat, tid: nat)
    requires Csr.Ordered(idx) && num >= 1
  {
    Pos(s, idx, num, tid + 1) < |idx|
  }

  /** last when thread tid starts: where the most recently closed range ended. */
  function Last(s: Sizes, idx: seq<nat>, num: nat, tid: nat): (r: nat)
    requires Csr.Ordered(idx) && num >= 1
    ensures r <= Pos(s, idx, num, tid)
  {
    if tid == 0 then 0
    else if Closes(s, idx, num, tid - 1) then Pos(s, idx, num, tid)
    else Last(s, idx, num, tid - 1)
  }

  /** The slot a closing thread tid gets: last .. the closing node, with
      the nodes and edges counted on the way. */
  function Range(s: Sizes, idx: seq<nat>, num: nat, tid: nat): DistributeInfo
    requires Csr.Ordered(idx) && num >= 1
  {
    var b, e := Last(s, idx, num, tid), Pos(s, idx, num, tid + 1);
    OffsetMonotone(idx, b, e);
    DistributeInfo(e - b, Csr.Offset(idx, e) - Csr.Offset(idx, b), b, e)
  }

  /** The slot of the last thread: everything from last to the end. */
  function FinalRange(s: Sizes, idx: seq<nat>, num: nat): DistributeInfo
    requires Csr.Ordered(idx) && num >= 1
  {
    var b := Last(s, idx, num, num - 1);
    OffsetMonotone(idx, b, |idx|);
    DistributeInfo(|idx| - b, Csr.Offset(idx, |idx|) - Csr.Offset(idx, b), b, |idx|)
  }

  /** The inner loop of distribute for one thread: pass nodes, adding
      each one's bytes to curSize and counting its node and edges, until
      the end of the nodes or a node at which curSize has reached thr. */
  method ScanThread(s: Sizes, idx: seq<nat>, thr: nat, ii0: nat, curSize0: nat, nnodes0: nat, nedges0: nat)
    returns (ii: nat, curSize: nat, nnodes: nat, nedges: nat)
    requires Csr.Ordered(idx) && ii0 <= |idx| && curSize0 == Bytes(s, idx, ii0)
    ensures ii == FirstReach(s, idx, thr, ii0) && curSize == Bytes(s, idx, ii)
    ensures Csr.Offset(idx, ii0) <= Csr.Offset(idx, ii)
    ensures nnodes == nnodes0 + (ii - ii0) && nedges == nedges0 + (Csr.Offset(idx, ii) - Csr.Offset(idx, ii0))
  {
    ii, curSize, nnodes, nedges := ii0, curSize0, nnodes0, nedges0;
    while ii != |idx| && curSize < thr
      invariant ii0 <= ii <= |idx|
      invariant FirstReach(s, idx, thr, ii) == FirstReach(s, idx, thr, ii0)
      invariant curSize == Bytes(s, idx, ii)
      invariant Csr.Offset(idx, ii0) <= Csr.Offset(idx, ii)
      invariant nnodes == nnodes0 + (ii - ii0) && nedges == nedges0 + (Csr.Offset(idx, ii) - Csr.Offset(idx, ii0))
      decreases |idx| - ii
    {
      var nneighbors := Csr.Degree(idx, ii);
      NatProduct(s.edge, nneighbors);
      nedges := nedges + nneighbors;
      nnodes := nnodes + 1;
      curSize := curSize + s.node + s.edge * nneighbors;
      ii := ii + 1;
    }
  }

  /** What distribute leaves in slot t < num - 1, given what it held
      before: the thread's range when it closes, the old value otherwise. */
  function Slot(s: Sizes, idx: seq<nat>, num: nat, t: nat, d0: DistributeInfo): DistributeInfo
    requires Csr.Ordered(idx) && num >= 1
  {
    if Closes(s, idx, num, t) then Range(s, idx, num, t) else d0
  }

  /** Slots 0 .. k-1 as distribute leaves them, from their old values d0. */
  function Slots(s: Sizes, idx: seq<nat>, num: nat, d0: seq<DistributeInfo>, k: nat): (r: seq<DistributeInfo>)
    requires Csr.Ordered(idx) && num >= 1 && k <= |d0|
    ensures |r| == k
  {
    if k == 0 then [] else Slots(s, idx, num, d0, k - 1) + [Slot(s, idx, num, k - 1, d0[k - 1])]
  }

  lemma {:induction false} SlotsAt(s: Sizes, idx: seq<nat>, num: nat, d0: seq<DistributeInfo>, k: nat, t: nat)
    requires Csr.Ordered(idx) && num >= 1 && t < k <= |d0|
    ensures Slots(s, idx, num, d0, k)[t] == Slot(s, idx, num, t, d0[t])
  {
    var prev := Slots(s, idx, num, d0, k - 1);
    assert Slots(s, idx, num, d0, k) == prev + [Slot(s, idx, num, k - 1, d0[k - 1])];
    if t < k - 1 {
      SlotsAt(s, idx, num, d0, k - 1, t);
      assert Slots(s, idx, num, d0, k)[t] == prev[t];
    }
  }

  /** The close of thread tid's scan: when it stopped before the end of
      the nodes, record last .. ii with the counts in slot tid, add the
      counts to the running totals and start the next range at ii. */
  method CloseRange(s: Sizes, idx: seq<nat>, num: nat, tid: nat, dinfo: array<DistributeInfo>,
                    ii: nat, last0: nat, nnodes0: nat, nedges0: nat, runningNodes0: nat, runningEdges0: nat)
    returns (last: nat, nnodes: nat, nedges: nat, runningNodes: nat, runningEdges: nat)
    requires Csr.Ordered(idx) && 1 <= num && tid < dinfo.Length
    requires ii == Pos(s, idx, num, tid + 1) && last0 == Last(s, idx, num, tid)
    requires Csr.Offset(idx, last0) <= Csr.Offset(idx, ii)
    requires nnodes0 == ii - last0 && nedges0 == Csr.Offset(idx, ii) - Csr.Offset(idx, last0)
    requires runningNodes0 == last0 && runningEdges0 == Csr.Offset(idx, last0)
    modifies dinfo
    ensures dinfo[tid] == Slot(s, idx, num, tid, old(dinfo[tid]))
    ensures dinfo[..tid] == old(dinfo[..tid]) && dinfo[tid + 1..] == old(dinfo[tid + 1..])
    ensures last == Last(s, idx, num, tid + 1) && Csr.Offset(idx, last) <= Csr.Offset(idx, ii)
    ensures nnodes == ii - last && nedges == Csr.Offset(idx, ii) - Csr.Offset(idx, last)
    ensures runningNodes == last && runningEdges == Csr.Offset(idx, last)
  {
    last, nnodes, nedges, runningNodes, runningEdges := last0, nnodes0, nedges0, runningNodes0, runningEdges0;
    if ii != |idx| {
      assert Closes(s, idx, num, tid) && Last(s, idx, num, tid + 1) == ii;
      dinfo[tid] := DistributeInfo(nnodes, nedges, last, ii);
      runningNodes := runningNodes + nnodes;
      runningEdges := runningEdges + nedges;
      nnodes, nedges := 0, 0;
      last := ii;
    } else {
      assert !Closes(s, idx, num, tid) && Last(s, idx, num, tid + 1) == last;
    }
  }

  /** The local variables of distribute between two threads. */
  datatype Cursor = Cursor(ii: nat, curSize: nat, last: nat, nnodes: nat, nedges: nat,
                           runningNodes: nat, runningEdges: nat)

  /** The cursor as thread tid starts: the scan stands at Pos(tid), curSize
      holds the bytes before it, the open range runs from Last(tid) and the
      running totals count the nodes and edges before that. */
  predicate AtThread(s: Sizes, idx: seq<nat>, num: nat, c: Cursor, tid: nat)
    requires Csr.Ordered(idx) && num >= 1
  {
    && c.ii == Pos(s, idx, num, tid) && c.last == Last(s, idx, num, tid)
    && c.curSize == Bytes(s, idx, c.ii)
    && Csr.Offset(idx, c.last) <= Csr.Offset(idx, c.ii)
    && c.nnodes == c.ii - c.last && c.nedges == Csr.Offset(idx, c.ii) - Csr.Offset(idx, c.last)
    && c.runningNodes == c.last && c.runningEdges == Csr.Offset(idx, c.last)
  }

  /** One pass of distribute's outer loop, for thread tid < num - 1. */
  method DistributeThread(s: Sizes, idx: seq<nat>, num: nat, blockSize: nat, tid: nat,
                          dinfo: array<DistributeInfo>, c0: Cursor) returns (c: Cursor)
    requires Csr.Ordered(idx) && 1 <= num && tid < dinfo.Length
    requires blockSize == BlockShare(s, idx, num)
    requires AtThread(s, idx, num, c0, tid)
    modifies dinfo
    ensures AtThread(s, idx, num, c, tid + 1)
    ensures dinfo[tid] == Slot(s, idx, num, tid, old(dinfo[tid]))
    ensures dinfo[..tid] == old(dinfo[..tid]) && dinfo[tid + 1..] == old(dinfo[tid + 1..])
  {
    var thr := (tid + 1) * blockSize;
    var ii, curSize, nnodes, nedges := ScanThread(s, idx, thr, c0.ii, c0.curSize, c0.nnodes, c0.nedges);
    assert ii == Pos(s, idx, num, tid + 1);
    var last, runningNodes, runningEdges;
    last, nnodes, nedges, runningNodes, runningEdges :=
      CloseRange(s, idx, num, tid, dinfo, ii, c0.last, nnodes, nedges, c0.runningNodes, c0.runningEdges);
    c := Cursor(ii, curSize, last, nnodes, nedges, runningNodes, runningEdges);
  }

  /** distribute: scan the nodes in order, adding each node's bytes to
      curSize; thread tid < num - 1 closes its range at the first node
      reached with curSize >= (tid + 1) * (total / num), and the last thread
      takes whatever is left. A thread whose scan reaches the end without
      closing leaves its slot as it was. */
  method Distribute(s: Sizes, idx: seq<nat>, num: nat, dinfo: array<DistributeInfo>)
    requires Csr.Ordered(idx) && 1 <= num <= dinfo.Length
    modifies dinfo
    ensures dinfo[..num - 1] == Slots(s, idx, num, old(dinfo[..]), num - 1)
    ensures dinfo[num - 1] == FinalRange(s, idx, num)
    ensures dinfo[num..] == old(dinfo[num..])
  {
    var numEdges := Csr.Offset(idx, |idx|);
    NatProduct(s.node, |idx|);
    NatProduct(s.edge, numEdges);
    var total := s.node * |idx| + s.edge * numEdges;
    var blockSize := total / num;
    assert blockSize == BlockShare(s, idx, num);
    var c := Cursor(0, 0, 0, 0, 0, 0, 0);
    var tid := 0;
    while tid + 1 < num
      invariant tid <= num - 1
      invariant AtThread(s, idx, num, c, tid)
      invariant dinfo[..tid] == Slots(s, idx, num, old(dinfo[..]), tid)
      invariant dinfo[tid..] == old(dinfo[..])[tid..]
      decreases num - tid
    {
      c := DistributeThread(s, idx, num, blockSize, tid, dinfo, c);
      assert dinfo[..tid + 1] == dinfo[..tid] + [dinfo[tid]];
      tid := tid + 1;
    }
    assert dinfo[num..] == old(dinfo[num..]) by {
      assert dinfo[tid..][1..] == dinfo[num..];
    }
    CloseLast(s, idx, num, dinfo, c);
  }

  /** The end of distribute: the last thread's slot takes every node from
      last to the end, and the counts the running totals leave. */
  method CloseLast(s: Sizes, idx: seq<nat>, num: nat, dinfo: array<DistributeInfo>, c: Cursor)
    requires Csr.Ordered(idx) && 1 <= num <= dinfo.Length
    requires AtThread(s, idx, num, c, num - 1)
    modifies dinfo
    ensures dinfo[num - 1] == FinalRange(s, idx, num)
    ensures dinfo[..num - 1] == old(dinfo[..num - 1]) && dinfo[num..] == old(dinfo[num..])
  {
    var numEdges := Csr.Offset(idx, |idx|);
    OffsetMonotone(idx, c.last, |idx|);
    dinfo[num - 1] := DistributeInfo(|idx| - c.runningNodes, numEdges - c.runningEdges, c.last, |idx|);
  }

  /** Each range begins where the previous written range ends: after thread
      t closes, every thread up to the next one to close starts from t's
      closing node. */
  lemma NextRangeBegins(s: Sizes, idx: seq<nat>, num: nat, t: nat, t2: nat)
    requires Csr.Ordered(idx) && 1 <= num && t < t2 < num
    requires Closes(s, idx, num, t)
    requires forall u :: t < u < t2 ==> !Closes(s, idx, num, u)
    ensures Last(s, idx, num, t2) == Range(s, idx, num, t).end
  {
    LastAfterClose(s, idx, num, t, t2);
  }

  /** After thread t closes at Pos(t + 1), last stays there until the
      next thread closes. */
  lemma LastAfterClose(s: Sizes, idx: seq<nat>, num: nat, t: nat, t2: nat)
    requires Csr.Ordered(idx) && 1 <= num && t < t2 < num
    requires Closes(s, idx, num, t)
    requires forall u :: t < u < t2 ==> !Closes(s, idx, num, u)
    ensures Last(s, idx, num, t2) == Pos(s, idx, num, t + 1)
  {
    LastClosedStep(s, idx, num, t);
    var k := t + 1;
    while k < t2
      invariant t < k <= t2
      invariant Last(s, idx, num, k) == Pos(s, idx, num, t + 1)
      decreases t2 - k
    {
      LastOpenStep(s, idx, num, k);
      k := k + 1;
    }
  }

  /** When thread t closes, last moves to the node where it closed. */
  lemma LastClosedStep(s: Sizes, idx: seq<nat>, num: nat, t: nat)
    requires Csr.Ordered(idx) && 1 <= num && Closes(s, idx, num, t)
    ensures Last(s, idx, num, t + 1) == Pos(s, idx, num, t + 1)
  {
  }

  /** When thread t does not close, last stays where it was. */
  lemma LastOpenStep(s: Sizes, idx: seq<nat>, num: nat, t: nat)
    requires Csr.Ordered(idx) && 1 <= num && !Closes(s, idx, num, t)
    ensures Last(s, idx, num, t + 1) == Last(s, idx, num, t)
  {
  }

  /** The first written range begins at node 0. */
  lemma {:induction false} FirstRangeBegins(s: Sizes, idx: seq<nat>, num: nat, t: nat)
    requires Csr.Ordered(idx) && 1 <= num && t < num
    requires forall u :: 0 <= u < t ==> !Closes(s, idx, num, u)
    ensures Last(s, idx, num, t) == 0
  {
    if t > 0 {
      FirstRangeBegins(s, idx, num, t - 1);
    }
  }

  /** Nodes in the written slots of threads 0 .. t-1. */
  function NodesAssigned(s: Sizes, idx: seq<nat>, num: nat, t: nat): nat
    requires Csr.Ordered(idx) && num >= 1
  {
    if t == 0 then 0
    else NodesAssigned(s, idx, num, t - 1) + (if Closes(s, idx, num, t - 1) then Range(s, idx, num, t - 1).numNodes else 0)
  }

  /** Edges in the written slots of threads 0 .. t-1. */
  function EdgesAssigned(s: Sizes, idx: seq<nat>, num: nat, t: nat): nat
    requires Csr.Ordered(idx) && num >= 1
  {
    if t == 0 then 0
    else EdgesAssigned(s, idx, num, t - 1) + (if Closes(s, idx, num, t - 1) then Range(s, idx, num, t - 1).numEdges else 0)
  }

  /** runningNodes and runningEdges: the closed ranges before thread t hold
      exactly the nodes and edges before last. */
  lemma {:induction false} AssignedUpToLast(s: Sizes, idx: seq<nat>, num: nat, t: nat)
    requires Csr.Ordered(idx) && num >= 1
    ensures NodesAssigned(s, idx, num, t) == Last(s, idx, num, t)
    ensures EdgesAssigned(s, idx, num, t) == Csr.Offset(idx, Last(s, idx, num, t))
  {
    if t > 0 {
      AssignedUpToLast(s, idx, num, t - 1);
    }
  }

  /** The slots distribute writes split the graph: their node counts add
      up to the number of nodes and their edge counts to the number of
      edges. */
  lemma CountsSumToTotals(s: Sizes, idx: seq<nat>, num: nat)
    requires Csr.Ordered(idx) && num >= 1
    ensures NodesAssigned(s, idx, num, num - 1) + FinalRange(s, idx, num).numNodes == |idx|
    ensures EdgesAssigned(s, idx, num, num - 1) + FinalRange(s, idx, num).numEdges == Csr.Offset(idx, |idx|)
  {
    AssignedUpToLast(s, idx, num, num - 1);
  }

  /** Every slot distribute writes is a range of node ids whose counts are
      its length and the number of edges of its nodes. */
  predicate Consistent(idx: seq<nat>, d: DistributeInfo)
    requires Csr.Ordered(idx)
  {
    && d.begin <= d.end <= |idx|
    && d.numNodes == d.end - d.begin
    && Csr.Offset(idx, d.begin) <= Csr.Offset(idx, d.end)
    && d.numEdges == Csr.Offset(idx, d.end) - Csr.Offset(idx, d.begin)
  }

  lemma WrittenSlotsConsistent(s: Sizes, idx: seq<nat>, num: nat, t: nat)
    requires Csr.Ordered(idx) && num >= 1 && t < num - 1
    ensures Consistent(idx, Range(s, idx, num, t))
    ensures Consistent(idx, FinalRange(s, idx, num))
  {
    var b, e := Last(s, idx, num, t), Pos(s, idx, num, t + 1);
    assert b <= Pos(s, idx, num, t) <= e;
    OffsetMonotone(idx, b, e);
  }

  /** The byte size AllocateNodes requests for a thread: two headers (room
      for alignment), two node slots per node and one edge slot per edge. */
  function BlockSize(s: Sizes, headerSize: nat, d: DistributeInfo): (r: nat)
    ensures r == 2 * headerSize + d.numNodes * (2 * s.node) + d.numEdges * s.edge
  {
    headerSize * 2 + s.node * d.numNodes * 2 + s.edge * d.numEdges
  }

  /** AllocateNodes for one thread, with the block at raw: the header's
      first node goes right after the header, each node of the thread's
      range is placed where the previous one's next() left off and records
      neighborsSize edges, and the header's end is the slot after the last
      one. A thread with no nodes gets an empty block. Other nodes are
      untouched. */
  method AllocateNodes(s: Sizes, headerSize: nat, idx: seq<nat>, d: DistributeInfo, raw: nat,
                       nodes: array<nat>, nodeEdges: array<nat>) returns (h: Header)
    requires s.Valid() && Csr.Ordered(idx)
    requires nodes.Length == |idx| == nodeEdges.Length && nodes != nodeEdges
    requires d.numNodes != 0 ==> d.begin <= d.end <= |idx|
    requires d.numNodes != 0 ==> forall i :: d.begin <= i < d.end ==> Csr.Degree(idx, i) < IntLimit
    modifies nodes, nodeEdges
    ensures h.size == BlockSize(s, headerSize, d) && h.begin == raw + headerSize
    ensures d.numNodes == 0 ==> h.end == h.begin
    ensures d.numNodes != 0 ==> h.end == LayoutEnd(s, raw + headerSize, idx, d.begin, d.end)
    ensures d.numNodes != 0 ==> forall i {:trigger nodes[i]} :: d.begin <= i < d.end ==>
              nodes[i] == LayoutEnd(s, raw + headerSize, idx, d.begin, i)
    ensures d.numNodes != 0 ==> forall i {:trigger nodeEdges[i]} :: d.begin <= i < d.end ==>
              nodeEdges[i] == Csr.Degree(idx, i)
    ensures forall i :: 0 <= i < |idx| && !(d.numNodes != 0 && d.begin <= i < d.end) ==>
              nodes[i] == old(nodes[i]) && nodeEdges[i] == old(nodeEdges[i])
  {
    var size := BlockSize(s, headerSize, d);
    var first := raw + headerSize;
    h := Header(first, first, size);
    if d.numNodes == 0 {
      return;
    }
    var ii, end := d.begin, first;
    while ii != d.end
      invariant d.begin <= ii <= d.end
      invariant end == LayoutEnd(s, first, idx, d.begin, ii)
      invariant forall i {:trigger nodes[i]} :: d.begin <= i < ii ==> nodes[i] == LayoutEnd(s, first, idx, d.begin, i)
      invariant forall i {:trigger nodeEdges[i]} :: d.begin <= i < ii ==> nodeEdges[i] == Csr.Degree(idx, i)
      invariant forall i :: 0 <= i < |idx| && !(d.begin <= i < ii) ==>
                  nodes[i] == old(nodes[i]) && nodeEdges[i] == old(nodeEdges[i])
      decreases d.end - ii
    {
      var k := Csr.Degree(idx, ii);
      nodeEdges[ii] := k;
      nodes[ii] := end;
      end := Next(s, end, k);
      ii := ii + 1;
    }
    h := h.(end := end);
  }

  /** A thread's nodes and edges fit in the block AllocateNodes requests
      for a slot distribute wrote: the layout from just after the header
      ends at least one header size before the end of the block. */
  lemma BlockFits(s: Sizes, headerSize: nat, idx: seq<nat>, d: DistributeInfo, raw: nat)
    requires s.Valid() && Csr.Ordered(idx) && Consistent(idx, d)
    ensures raw + headerSize <= LayoutEnd(s, raw + headerSize, idx, d.begin, d.end)
    ensures LayoutEnd(s, raw + headerSize, idx, d.begin, d.end) + headerSize <= raw + BlockSize(s, headerSize, d)
  {
    LayoutBound(s, raw + headerSize, idx, d.begin, d.end);
  }
}

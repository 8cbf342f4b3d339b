/**
 * Model of LC_Linear_Graph (include/Galois/Graphs/LCGraph.h): every node
 * is stored in one block, each NodeInfo directly followed by its edges,
 * the next node at the first free node slot (see NodeLayout).
 *
 * The block is byte-addressed from the address the allocator returned.
 * The model keeps, per node id, the address of its NodeInfo (the nodes
 * array) and the edge count stored in it, and keeps the edges' dst
 * pointers as a map from an EdgeInfo's address to the address of the
 * destination's NodeInfo. Edges carry no data.
 */
module LCLinearGraph {
  import Csr
  import FileGraph
  import opened NodeLayout

  /** The bytes structureFromFile allocates for numNodes nodes and numEdges
      edges: two node slots per node (room for the rounding of next()) and
      one edge slot per edge. */
  function AllocSize(s: Sizes, numNodes: nat, numEdges: nat): (r: nat)
    ensures r == numNodes * (2 * s.node) + numEdges * s.edge
  {
    s.node * numNodes * 2 + s.edge * numEdges
  }

  /** Node i's NodeInfo and EdgeInfo records lie after the block start,
      end at or before node i + 1's NodeInfo, and lie inside the block that
      structureFromFile allocates. */
  lemma NodeRecordFits(s: Sizes, a: nat, idx: seq<nat>, dst: seq<nat>, i: nat)
    requires s.Valid() && Csr.WellFormed(idx, dst) && i < |idx|
    ensures a <= LayoutEnd(s, a, idx, 0, i) < EdgeBegin(s, LayoutEnd(s, a, idx, 0, i))
    ensures i + 1 < |idx| ==> EdgeEnd(s, LayoutEnd(s, a, idx, 0, i), Csr.Degree(idx, i)) <= LayoutEnd(s, a, idx, 0, i + 1)
    ensures EdgeEnd(s, LayoutEnd(s, a, idx, 0, i), Csr.Degree(idx, i)) <= a + AllocSize(s, |idx|, |dst|)
  {
    NodeEdgesEndBeforeNext(s, a, idx, 0, i, |idx|);
    LayoutBound(s, a, idx, 0, |idx|);
    LayoutBound(s, a, idx, 0, i);
  }

  /** The first loop of structureFromFile: node i's NodeInfo goes where
      next() left off after node i - 1 and records neighborsSize(i) edges.
      The file graph is read through its out-index sequence idx. */
  method PlaceNodes(s: Sizes, idx: seq<nat>, base: nat) returns (ns: array<nat>, ks: array<nat>)
    requires s.Valid()
    requires Csr.Ordered(idx)
    ensures fresh(ns) && fresh(ks) && ns != ks
    ensures ns.Length == |idx| && ks.Length == |idx|
    ensures forall i :: 0 <= i < ks.Length ==> ks[i] == Csr.Degree(idx, i)
    ensures forall i :: 0 <= i < ns.Length ==> ns[i] == LayoutEnd(s, base, idx, 0, i)
  {
    ns := new nat[|idx|];
    ks := new nat[|idx|];
    var curNode := base;
    var ii := 0;
    while ii < ns.Length
      invariant 0 <= ii <= ns.Length
      invariant ns.Length == |idx| && ks.Length == |idx|
      invariant curNode == LayoutEnd(s, base, idx, 0, ii)
      invariant forall i {:trigger ns[i]} :: 0 <= i < ii ==> ns[i] == LayoutEnd(s, base, idx, 0, i)
      invariant forall i {:trigger ks[i]} :: 0 <= i < ii ==> ks[i] == Csr.Degree(idx, i)
      decreases ns.Length - ii
    {
      var k := Csr.Degree(idx, ii);
      ks[ii] := k;
      ns[ii] := curNode;
      curNode := Next(s, curNode, k);
      ii := ii + 1;
    }
  }

  /** The inner loop of the edge layout for node ii: its k-th edge in the
      file goes in the k-th EdgeInfo after its NodeInfo, pointing at the
      NodeInfo of the edge's destination. Slots already written, all below
      this node's edges, are kept. */
  method WriteNodeEdges(s: Sizes, idx: seq<nat>, dst: seq<nat>, nodes: array<nat>, ii: nat, ed0: map<nat, nat>)
    returns (ed: map<nat, nat>)
    requires s.Valid() && ii < |idx| == nodes.Length
    requires Csr.Offset(idx, ii) <= idx[ii] <= |dst|
    requires forall j :: 0 <= j < |dst| ==> dst[j] < nodes.Length
    requires forall key :: key in ed0 ==> key < EdgeBegin(s, nodes[ii])
    ensures forall key :: key in ed0 ==> key in ed && ed[key] == ed0[key]
    ensures forall key :: key in ed ==> key in ed0 || EdgeBegin(s, nodes[ii]) <= key < EdgeEnd(s, nodes[ii], Csr.Degree(idx, ii))
    ensures forall j :: 0 <= j < Csr.Degree(idx, ii) ==>
              EdgeSlot(s, nodes[ii], j) in ed && ed[EdgeSlot(s, nodes[ii], j)] == nodes[dst[Csr.Offset(idx, ii) + j]]
  {
    ed := ed0;
    var a := nodes[ii];
    var edge := EdgeBegin(s, a);
    var ni, ne := Csr.RangeBegin(idx, ii), Csr.RangeEnd(idx, ii);
    ghost var lo := ni;
    while ni != ne
      invariant lo <= ni <= ne == idx[ii] <= |dst|
      invariant edge == EdgeSlot(s, a, ni - lo)
      invariant forall key :: key in ed0 ==> key in ed && ed[key] == ed0[key]
      invariant forall key :: key in ed ==> key in ed0 || EdgeBegin(s, a) <= key < edge
      invariant forall j :: 0 <= j < ni - lo ==> EdgeSlot(s, a, j) in ed && ed[EdgeSlot(s, a, j)] == nodes[dst[lo + j]]
      decreases ne - ni
    {
      ghost var prev := ed;
      ed := ed[edge := nodes[dst[ni]]];
      forall j | 0 <= j < ni - lo
        ensures EdgeSlot(s, a, j) in ed && ed[EdgeSlot(s, a, j)] == nodes[dst[lo + j]]
      {
        assert EdgeSlot(s, a, j) in prev && EdgeSlot(s, a, j) < edge;
      }
      EdgeSlotStep(s, a, ni - lo);
      edge := edge + s.edge;
      ni := ni + 1;
    }
  }

  /** The edges of nodes 0 .. hi-1 are written, each EdgeInfo pointing at
      its destination's NodeInfo, and nothing was written outside their
      records. */
  ghost predicate EdgesWritten(s: Sizes, idx: seq<nat>, dst: seq<nat>, nodes: array<nat>, base: nat,
                               ed: map<nat, nat>, hi: nat)
    requires s.Valid() && Csr.WellFormed(idx, dst) && nodes.Length == |idx| && hi <= |idx|
    reads nodes
  {
    && (forall key :: key in ed ==> base < key < LayoutEnd(s, base, idx, 0, hi))
    && (forall i, j :: 0 <= i < hi && 0 <= j < Csr.Degree(idx, i) ==>
          EdgeSlot(s, nodes[i], j) in ed && ed[EdgeSlot(s, nodes[i], j)] == nodes[dst[Csr.Offset(idx, i) + j]])
  }

  /** One iteration of the edge layout loop: write node ii's edges. */
  method WriteNextNode(s: Sizes, idx: seq<nat>, dst: seq<nat>, nodes: array<nat>, base: nat,
                       ed0: map<nat, nat>, ii: nat) returns (ed: map<nat, nat>)
    requires s.Valid() && Csr.WellFormed(idx, dst) && nodes.Length == |idx| && ii < |idx|
    requires forall i :: 0 <= i < |idx| ==> nodes[i] == LayoutEnd(s, base, idx, 0, i)
    requires EdgesWritten(s, idx, dst, nodes, base, ed0, ii)
    ensures EdgesWritten(s, idx, dst, nodes, base, ed, ii + 1)
  {
    var k := Csr.Degree(idx, ii);
    var here := LayoutEnd(s, base, idx, 0, ii);
    var next := LayoutEnd(s, base, idx, 0, ii + 1);
    assert next == NextSlot(s, here, k);
    NextSlotIsFirstFree(s, here, k);
    LayoutMonotone(s, base, idx, 0, 0, ii);
    var eb, ee := EdgeBegin(s, here), EdgeEnd(s, here, k);
    assert base <= here < eb <= ee <= next;
    ed := WriteNodeEdges(s, idx, dst, nodes, ii, ed0);
    forall key | key in ed ensures base < key < next {
      if key !in ed0 {
        assert eb <= key < ee;
      }
    }
    forall i, j | 0 <= i < ii && 0 <= j < Csr.Degree(idx, i)
      ensures EdgeSlot(s, nodes[i], j) in ed && ed[EdgeSlot(s, nodes[i], j)] == nodes[dst[Csr.Offset(idx, i) + j]]
    {
      assert EdgeSlot(s, nodes[i], j) in ed0;
    }
  }

  /** The second loop of structureFromFile: lay out the edges of every node. */
  method WriteEdges(s: Sizes, idx: seq<nat>, dst: seq<nat>, nodes: array<nat>, base: nat) returns (ed: map<nat, nat>)
    requires s.Valid() && Csr.WellFormed(idx, dst) && nodes.Length == |idx|
    requires forall i :: 0 <= i < |idx| ==> nodes[i] == LayoutEnd(s, base, idx, 0, i)
    ensures EdgesWritten(s, idx, dst, nodes, base, ed, |idx|)
  {
    ed := map[];
    var ii := 0;
    while ii < nodes.Length
      invariant 0 <= ii <= nodes.Length
      invariant EdgesWritten(s, idx, dst, nodes, base, ed, ii)
      decreases nodes.Length - ii
    {
      ed := WriteNextNode(s, idx, dst, nodes, base, ed, ii);
      ii := ii + 1;
    }
  }

  class LCLinearGraph {
    const sizes: Sizes
    /** Address of the Data block. */
    var data: nat
    var numNodes: nat
    var numEdges: nat
    /** nodes[i]: the address of node i's NodeInfo. */
    var nodes: array<nat>
    /** nodeEdges[i]: the numEdges field of node i's NodeInfo. */
    var nodeEdges: array<nat>
    /** The dst field of the EdgeInfo at each address written so far. */
    var edgeDst: map<nat, nat>

    /** The default constructor: no nodes, no block. */
    constructor (s: Sizes)
      requires s.Valid()
      ensures Valid() && sizes == s && numNodes == 0 && numEdges == 0 && edgeDst == map[]
    {
      sizes := s;
      data, numNodes, numEdges := 0, 0, 0;
      nodes := new nat[0];
      nodeEdges := new nat[0];
      edgeDst := map[];
    }

    ghost predicate Valid()
      reads this
    {
      sizes.Valid() && nodes.Length == numNodes && nodeEdges.Length == numNodes && nodes != nodeEdges
    }

    /** Every node i sits where the layout from data puts it and its
        NodeInfo records its degree in the out-index sequence idx. */
    ghost predicate Placed(idx: seq<nat>)
      reads this, nodes, nodeEdges
    {
      && Valid() && |idx| == numNodes
      && Csr.Ordered(idx)
      && (forall i :: 0 <= i < numNodes ==> nodeEdges[i] == Csr.Degree(idx, i))
      && (forall i :: 0 <= i < numNodes ==> nodes[i] == LayoutEnd(sizes, data, idx, 0, i))
    }

    /** The block holds the graph with out-indices idx and destinations dst:
        the nodes are placed, node i's j-th EdgeInfo points at the NodeInfo
        of its j-th destination, and nothing else in the block was written. */
    ghost predicate Holds(idx: seq<nat>, dst: seq<nat>)
      reads this, nodes, nodeEdges
    {
      && Csr.WellFormed(idx, dst) && Placed(idx) && |dst| == numEdges
      && EdgesWritten(sizes, idx, dst, nodes, data, edgeDst, numNodes)
    }

    /** structureFromFile, from the point the file is parsed and the Data
        block allocated at base: take the counts through size() and
        sizeEdges(), place every node with next(), then write every edge.
        The counts must fit in 32 bits, which size() truncates them to, and
        every node's degree in the int NodeInfo::numEdges. */
    method StructureFromFile(g: FileGraph.FileGraph, base: nat)
      requires sizes.Valid() && g.Valid() && g.WellFormed()
      requires g.numNodes < FileGraph.U32 && g.numEdges < FileGraph.U32
      requires forall n :: 0 <= n < g.numNodes ==> g.NeighborsSize(n) < IntLimit
      modifies this
      ensures fresh(nodes) && fresh(nodeEdges)
      ensures data == base && numNodes == g.numNodes && numEdges == g.numEdges
      ensures Holds(g.OutIdxSeq(), g.OutsSeq())
    {
      numNodes := g.Size();
      numEdges := g.SizeEdges();
      data := base;
      var idx := g.OutIdxSeq();
      var dst := g.OutsSeq();
      nodes, nodeEdges := PlaceNodes(sizes, idx, base);
      edgeDst := WriteEdges(sizes, idx, dst, nodes, base);
    }

    /** edge_begin(N) / edge_end(N) for node i: NodeInfo::edgeBegin and edgeEnd. */
    function EdgeBeginOf(i: nat): (r: nat)
      requires Valid() && i < numNodes
      reads this, nodes
      ensures r == nodes[i] + sizes.node
    {
      EdgeBegin(sizes, nodes[i])
    }

    function EdgeEndOf(i: nat): (r: nat)
      requires Valid() && i < numNodes
      reads this, nodes, nodeEdges
      ensures r == EdgeSlot(sizes, nodes[i], nodeEdges[i])
    {
      EdgeEnd(sizes, nodes[i], nodeEdges[i])
    }

    /** In a loaded graph node i's NodeInfo and edges lie inside the block
        structureFromFile allocates. */
    lemma NodeInBlock(idx: seq<nat>, dst: seq<nat>, i: nat)
      requires Placed(idx) && Csr.WellFormed(idx, dst) && |dst| == numEdges && i < numNodes
      ensures data <= nodes[i] < EdgeBeginOf(i) <= EdgeEndOf(i) <= data + AllocSize(sizes, numNodes, numEdges)
    {
      assert nodes[i] == LayoutEnd(sizes, data, idx, 0, i) && nodeEdges[i] == Csr.Degree(idx, i);
      NodeRecordFits(sizes, data, idx, dst, i);
    }

    /** In a loaded graph node i's edges end at or before node i + 1's
        NodeInfo: no two nodes' records overlap. */
    lemma NodesDisjoint(idx: seq<nat>, dst: seq<nat>, i: nat)
      requires Placed(idx) && Csr.WellFormed(idx, dst) && i + 1 < numNodes
      ensures EdgeEndOf(i) <= nodes[i + 1]
    {
      assert nodes[i] == LayoutEnd(sizes, data, idx, 0, i) && nodeEdges[i] == Csr.Degree(idx, i);
      assert nodes[i + 1] == LayoutEnd(sizes, data, idx, 0, i + 1);
      NodeEdgesEndBeforeNext(sizes, data, idx, 0, i, i + 1);
    }
  }
}

/**
 * Model of LC_CSRInline_Graph (include/Galois/Graphs/LCGraph.h): every
 * NodeInfo stores the bounds [edgebegin, edgeend) of its own edges inside
 * one EdgeData array, and every EdgeInfo stores a pointer to the NodeInfo
 * of its destination. Edges carry no data (EdgeInfoWrapper<NITy, void>).
 *
 * Pointers into NodeData and EdgeData are modelled as indices into those
 * arrays: &NodeData[x] is x and &EdgeData[j] is j.
 */
module LCCsrInlineGraph {
  import Csr
  import FileGraph

  /** NodeInfo: the bounds of the node's edges in EdgeData. */
  datatype NodeInfo = NodeInfo(edgeBegin: nat, edgeEnd: nat)

  /** node_ids: the NodeInfo of every node id, &NodeData[id]. */
  method NodeIds(numNodes: nat) returns (ids: array<nat>)
    ensures fresh(ids) && ids.Length == numNodes
    ensures forall x :: 0 <= x < numNodes ==> ids[x] == x
  {
    ids := new nat[numNodes];
    var ii := 0;
    while ii < numNodes
      invariant 0 <= ii <= numNodes
      invariant forall x :: 0 <= x < ii ==> ids[x] == x
      decreases numNodes - ii
    {
      ids[ii] := ii;
      ii := ii + 1;
    }
  }

  /** Nodes 0 .. hi-1 are laid out: node i's bounds are its range in the
      file and every edge of those nodes points at its destination's
      NodeInfo. */
  ghost predicate LaidOut(idx: seq<nat>, dst: seq<nat>, nodeData: array<NodeInfo>, edgeData: array<nat>, hi: nat)
    requires Csr.WellFormed(idx, dst) && hi <= |idx| <= nodeData.Length
    reads nodeData, edgeData
  {
    && (forall i :: 0 <= i < hi ==> nodeData[i] == NodeInfo(Csr.RangeBegin(idx, i), Csr.RangeEnd(idx, i)))
    && (forall j :: 0 <= j < Csr.Offset(idx, hi) ==> j < edgeData.Length && edgeData[j] == dst[j])
  }

  /** One pass of the edge layout loop: node ii's edgebegin is the current
      edge, each of its edges in file order takes the next EdgeInfo and
      points at node_ids of its destination, and edgeend is where the
      current edge stops. */
  method LayOutNode(idx: seq<nat>, dst: seq<nat>, nodeIds: array<nat>, nodeData: array<NodeInfo>,
                    edgeData: array<nat>, ii: nat, curEdge0: nat) returns (curEdge: nat)
    requires Csr.WellFormed(idx, dst) && ii < |idx| == nodeIds.Length == nodeData.Length
    requires edgeData.Length == |dst| && nodeData != nodeIds as object && edgeData != nodeIds
    requires forall x :: 0 <= x < nodeIds.Length ==> nodeIds[x] == x
    requires curEdge0 == Csr.Offset(idx, ii)
    requires LaidOut(idx, dst, nodeData, edgeData, ii)
    modifies nodeData, edgeData
    ensures curEdge == Csr.Offset(idx, ii + 1)
    ensures LaidOut(idx, dst, nodeData, edgeData, ii + 1)
  {
    curEdge := curEdge0;
    var begin := curEdge;
    nodeData[ii] := NodeInfo(begin, 0);
    var ni, ne := Csr.RangeBegin(idx, ii), Csr.RangeEnd(idx, ii);
    while ni != ne
      invariant begin <= ni <= ne == idx[ii] <= |dst|
      invariant curEdge == ni
      invariant forall i :: 0 <= i < ii ==> nodeData[i] == NodeInfo(Csr.RangeBegin(idx, i), Csr.RangeEnd(idx, i))
      invariant forall j :: 0 <= j < ni ==> edgeData[j] == dst[j]
      decreases ne - ni
    {
      edgeData[curEdge] := nodeIds[dst[ni]];
      curEdge := curEdge + 1;
      ni := ni + 1;
    }
    nodeData[ii] := NodeInfo(begin, curEdge);
  }

  /** The edge layout loop of structureFromFile over every node. */
  method LayOutEdges(idx: seq<nat>, dst: seq<nat>, nodeIds: array<nat>, nodeData: array<NodeInfo>,
                     edgeData: array<nat>)
    requires Csr.WellFormed(idx, dst) && |idx| == nodeIds.Length == nodeData.Length
    requires edgeData.Length == |dst| && nodeData != nodeIds as object && edgeData != nodeIds
    requires forall x :: 0 <= x < nodeIds.Length ==> nodeIds[x] == x
    modifies nodeData, edgeData
    ensures LaidOut(idx, dst, nodeData, edgeData, |idx|)
  {
    var curEdge := 0;
    var ii := 0;
    while ii < nodeData.Length
      invariant 0 <= ii <= nodeData.Length
      invariant curEdge == Csr.Offset(idx, ii)
      invariant LaidOut(idx, dst, nodeData, edgeData, ii)
      decreases nodeData.Length - ii
    {
      curEdge := LayOutNode(idx, dst, nodeIds, nodeData, edgeData, ii, curEdge);
      ii := ii + 1;
    }
  }

  class LCCsrInlineGraph {
    var nodeData: array<NodeInfo>
    /** EdgeData[j].dst, as the index of the destination's NodeInfo. */
    var edgeData: array<nat>
    var numNodes: nat
    var numEdges: nat
    /** endNode: &NodeData[numNodes]. */
    var endNode: nat

    /** The default constructor: no arrays. */
    constructor ()
      ensures Valid() && numNodes == 0 && numEdges == 0
    {
      nodeData := new NodeInfo[0];
      edgeData := new nat[0];
      numNodes, numEdges, endNode := 0, 0, 0;
    }

    ghost predicate Valid()
      reads this
    {
      nodeData.Length == numNodes && edgeData.Length == numEdges && endNode == numNodes
    }

    /** The arrays hold the CSR graph with out-indices idx and
        destinations dst, laid out inline. */
    ghost predicate Holds(idx: seq<nat>, dst: seq<nat>)
      reads this, nodeData, edgeData
    {
      && Valid() && Csr.WellFormed(idx, dst) && |idx| == numNodes && |dst| == numEdges
      && LaidOut(idx, dst, nodeData, edgeData, numNodes)
    }

    /** structureFromFile, from the point the file is parsed: take the
        counts, allocate NodeData and EdgeData, compute node_ids and endNode,
        then lay out the edges node by node. The file's adjacency must be
        well formed (otherwise curEdge runs past EdgeData), and the counts
        must fit in 32 bits, which size() truncates them to. */
    method StructureFromFile(g: FileGraph.FileGraph)
      requires g.Valid() && g.WellFormed()
      requires g.numNodes < FileGraph.U32 && g.numEdges < FileGraph.U32
      modifies this
      ensures fresh(nodeData) && fresh(edgeData)
      ensures numNodes == g.numNodes && numEdges == g.numEdges
      ensures Holds(g.OutIdxSeq(), g.OutsSeq())
    {
      numNodes := g.Size();
      numEdges := g.SizeEdges();
      nodeData := new NodeInfo[numNodes](_ => NodeInfo(0, 0));
      edgeData := new nat[numEdges];
      var idx := g.OutIdxSeq();
      var dst := g.OutsSeq();
      assert Csr.WellFormed(idx, dst) && |idx| == numNodes && |dst| == numEdges;
      var nodeIds := NodeIds(numNodes);
      endNode := numNodes;
      LayOutEdges(idx, dst, nodeIds, nodeData, edgeData);
    }

    /** edge_begin / edge_end: the bounds stored in node n's NodeInfo. */
    function EdgeBegin(n: nat): (r: nat)
      requires Valid() && n < numNodes
      reads this, nodeData
      ensures r == nodeData[n].edgeBegin
    {
      nodeData[n].edgeBegin
    }

    function EdgeEnd(n: nat): (r: nat)
      requires Valid() && n < numNodes
      reads this, nodeData
      ensures r == nodeData[n].edgeEnd
    {
      nodeData[n].edgeEnd
    }

    /** getEdgeDst: the NodeInfo an edge points at. */
    function GetEdgeDst(j: nat): (d: nat)
      requires Valid() && j < numEdges
      reads this, edgeData
      ensures d == edgeData[j]
    {
      edgeData[j]
    }

    /** size / sizeEdges: the counts. */
    function Size(): (r: nat)
      reads this
      ensures r == numNodes
    {
      numNodes
    }

    function SizeEdges(): (r: nat)
      reads this
      ensures r == numEdges
    {
      numEdges
    }

    /** begin / end: the nodes are &NodeData[0] .. endNode. */
    function Begin(): nat { 0 }

    function End(): (r: nat)
      requires Valid()
      reads this
      ensures r == numNodes
    {
      endNode
    }

    /** The edges are contiguous in node order: node 0's edges begin at
        EdgeData[0], each node's begin where the previous node's end, and
        the last node's end at the end of EdgeData. */
    lemma Contiguous(idx: seq<nat>, dst: seq<nat>, n: nat)
      requires Holds(idx, dst) && n < numNodes
      ensures n == 0 ==> EdgeBegin(n) == 0
      ensures n > 0 ==> EdgeBegin(n) == EdgeEnd(n - 1)
      ensures n == numNodes - 1 ==> EdgeEnd(n) == numEdges
      ensures EdgeBegin(n) <= EdgeEnd(n) <= numEdges
    {
      assert nodeData[n] == NodeInfo(Csr.RangeBegin(idx, n), Csr.RangeEnd(idx, n));
      if n > 0 {
        assert nodeData[n - 1] == NodeInfo(Csr.RangeBegin(idx, n - 1), Csr.RangeEnd(idx, n - 1));
      }
    }

    /** A loaded graph has node n's neighbours, in file order, as its edges:
        the range has neighborsSize(n) edges, starts at the file's
        raw_neighbor_begin(n), and its k-th edge points at the NodeInfo of
        the file's k-th destination of n. */
    lemma EdgesMatchFile(g: FileGraph.FileGraph, n: nat, k: nat)
      requires g.Valid() && g.WellFormed() && Holds(g.OutIdxSeq(), g.OutsSeq()) && n < numNodes
      ensures EdgeBegin(n) <= EdgeEnd(n) <= numEdges == g.numEdges
      ensures EdgeBegin(n) == g.RawNeighborBegin(n)
      ensures EdgeEnd(n) - EdgeBegin(n) == g.NeighborsSize(n)
      ensures k < g.NeighborsSize(n) ==> GetEdgeDst(EdgeBegin(n) + k) == g.GetEdgeDst(g.RawNeighborBegin(n) + k)
    {
      var idx := g.OutIdxSeq();
      assert nodeData[n] == NodeInfo(Csr.RangeBegin(idx, n), Csr.RangeEnd(idx, n));
      assert Csr.Offset(idx, n) <= idx[n] <= |g.OutsSeq()|;
      if k < g.NeighborsSize(n) {
        assert edgeData[EdgeBegin(n) + k] == g.OutsSeq()[EdgeBegin(n) + k];
      }
    }
  }
}

/**
 * Model of LC_CSR_Graph (include/Galois/Graphs/LCGraph.h): the in-memory
 * compressed-sparse-row graph loaded from a graph file, with edges that
 * carry no data (the EdgeDataWrapper<void> specialisation).
 *
 * EdgeIndData and EdgeDst are arrays of 64-bit and 32-bit words; the model
 * keeps them as arrays of naturals filled from the file graph's words.
 */
module LCCsrGraph {
  import Csr
  import FileGraph

  /** EdgeDataWrapper<void>: no storage, every edge's data reads as false. */
  datatype VoidEdgeData = VoidEdgeData {
    /** get: the value an edge's data reads as, for any edge index. */
    function Get(x: int): (r: bool)
      ensures !r
    {
      false
    }

    /** readIn: loading edge data from a file stores nothing. */
    function ReadIn(g: FileGraph.FileGraph): (w: VoidEdgeData)
      ensures w == this
    {
      this
    }
  }

  /** std::copy(edgeid_begin(), edgeid_end(), ...) into a fresh array. */
  method CopyOutIdx(g: FileGraph.FileGraph) returns (a: array<nat>)
    requires g.Valid()
    ensures fresh(a) && a[..] == g.OutIdxSeq()
  {
    a := new nat[g.numNodes];
    var i := 0;
    while i < a.Length
      invariant 0 <= i <= a.Length == g.numNodes
      invariant forall k :: 0 <= k < i ==> a[k] == g.OutIdxWord(k)
      decreases a.Length - i
    {
      a[i] := g.OutIdxWord(i);
      i := i + 1;
    }
    assert a[..] == g.OutIdxSeq();
  }

  /** std::copy(nodeid_begin(), nodeid_end(), ...) into a fresh array. */
  method CopyOuts(g: FileGraph.FileGraph) returns (a: array<nat>)
    requires g.Valid()
    ensures fresh(a) && a[..] == g.OutsSeq()
  {
    a := new nat[g.numEdges];
    var j := 0;
    while j < a.Length
      invariant 0 <= j <= a.Length == g.numEdges
      invariant forall k :: 0 <= k < j ==> a[k] == g.OutsWord(k)
      decreases a.Length - j
    {
      a[j] := g.OutsWord(j);
      j := j + 1;
    }
    assert a[..] == g.OutsSeq();
  }

  class LCCsrGraph {
    var edgeIndData: array<nat>
    var edgeDst: array<nat>
    var edgeData: VoidEdgeData
    var numNodes: nat
    var numEdges: nat

    /** The default constructor: empty arrays. */
    constructor ()
      ensures numNodes == 0 && numEdges == 0
      ensures edgeIndData.Length == 0 && edgeDst.Length == 0
    {
      edgeIndData := new nat[0];
      edgeDst := new nat[0];
      edgeData := VoidEdgeData;
      numNodes, numEdges := 0, 0;
    }

    /** The arrays hold one entry per node and one per edge. */
    ghost predicate Valid()
      reads this
    {
      edgeIndData.Length == numNodes && edgeDst.Length == numEdges && edgeIndData != edgeDst
    }

    /** raw_neighbor_begin: the index of node n's first edge. */
    function RawNeighborBegin(n: nat): (r: nat)
      requires Valid() && n < numNodes
      reads this, edgeIndData
      ensures r == Csr.RangeBegin(edgeIndData[..], n)
    {
      if n == 0 then 0 else edgeIndData[n - 1]
    }

    /** raw_neighbor_end: one past node n's last edge. */
    function RawNeighborEnd(n: nat): (r: nat)
      requires Valid() && n < numNodes
      reads this, edgeIndData
      ensures r == Csr.RangeEnd(edgeIndData[..], n)
    {
      edgeIndData[n]
    }

    /** getEdgeDst: the destination of edge j. */
    function GetEdgeDst(j: nat): (d: nat)
      requires Valid() && j < numEdges
      reads this, edgeDst
      ensures d == edgeDst[..][j]
    {
      edgeDst[j]
    }

    /** getEdgeIdx: the first edge of src that leads to dst, or ~0. */
    method GetEdgeIdx(src: nat, dst: nat) returns (r: nat)
      requires Valid() && src < numNodes
      requires RawNeighborBegin(src) <= RawNeighborEnd(src) <= numEdges
      requires RawNeighborEnd(src) <= Csr.NoEdge
      ensures r == Csr.FindEdge(edgeDst[..], RawNeighborBegin(src), RawNeighborEnd(src), dst)
    {
      var ii := RawNeighborBegin(src);
      var ee := RawNeighborEnd(src);
      while ii != ee
        invariant RawNeighborBegin(src) <= ii <= ee
        invariant Csr.FindEdge(edgeDst[..], ii, ee, dst) == Csr.FindEdge(edgeDst[..], RawNeighborBegin(src), ee, dst)
        decreases ee - ii
      {
        if edgeDst[ii] == dst {
          return ii;
        }
        ii := ii + 1;
      }
      return Csr.NoEdge;
    }

    /** hasNeighbor: getEdgeIdx found an edge. */
    method HasNeighbor(src: nat, dst: nat) returns (r: bool)
      requires Valid() && src < numNodes
      requires RawNeighborBegin(src) <= RawNeighborEnd(src) <= numEdges
      requires RawNeighborEnd(src) <= Csr.NoEdge
      ensures r <==> exists j :: RawNeighborBegin(src) <= j < RawNeighborEnd(src) && GetEdgeDst(j) == dst
    {
      var idx := GetEdgeIdx(src, dst);
      r := idx != Csr.NoEdge;
      if r {
        assert GetEdgeDst(idx) == dst;
      } else {
        forall j | RawNeighborBegin(src) <= j < RawNeighborEnd(src) ensures GetEdgeDst(j) != dst {
          assert edgeDst[..][j] != dst;
        }
      }
    }

    /** size / sizeEdges: the 64-bit counts. */
    function Size(): (r: nat)
      reads this
      ensures r == numNodes
    {
      numNodes
    }

    function SizeEdges(): (r: nat)
      reads this
      ensures r == numEdges
    {
      numEdges
    }

    /** structureFromFile: take the counts through size() / sizeEdges(),
        allocate the arrays and copy the file's out-index and destination
        words into them. The counts must fit in 32 bits, since size()
        truncates them to unsigned int while the copies run over the full
        64-bit counts. */
    method StructureFromFile(g: FileGraph.FileGraph)
      requires g.Valid() && g.numNodes < FileGraph.U32 && g.numEdges < FileGraph.U32
      modifies this
      ensures Valid() && fresh(edgeIndData) && fresh(edgeDst)
      ensures numNodes == g.numNodes && numEdges == g.numEdges
      ensures edgeIndData[..] == g.OutIdxSeq() && edgeDst[..] == g.OutsSeq()
    {
      numNodes := g.Size();
      numEdges := g.SizeEdges();
      edgeData := edgeData.ReadIn(g);
      edgeIndData := CopyOutIdx(g);
      edgeDst := CopyOuts(g);
    }

    /** Once loaded, every node's edge range is the file graph's range. */
    lemma RangesMatchFile(g: FileGraph.FileGraph, n: nat)
      requires Valid() && g.Valid() && n < numNodes
      requires numNodes == g.numNodes
      requires edgeIndData[..] == g.OutIdxSeq()
      ensures RawNeighborBegin(n) == g.RawNeighborBegin(n)
      ensures RawNeighborEnd(n) == g.RawNeighborEnd(n)
    {
    }
  }
}

/**
 * Model of src/FileGraph.cpp: the V1 binary graph file and the queries on it.
 *
 * The mapped file is a byte sequence. Where the C++ keeps pointers into the
 * mapping (outIdx, outs, edgeData), the model keeps their byte offsets, and a
 * pointer into outs is the index of the edge it points at. Graph nodes are
 * 32-bit ids, the counts in the file are 64-bit.
 */
module FileGraph {
  import opened LittleEndian
  import Csr

  const U32: nat := 0x1_0000_0000
  const U64: nat := 0x1_0000_0000_0000_0000

  /** Byte offsets of the three arrays of a file. */
  datatype Layout = Layout(outIdx: nat, outs: nat, edgeData: nat)

  /** Where the V1 layout puts the arrays of a graph with the given counts:
      four 64-bit header words, then numNodes 64-bit out-indices, then
      numEdges 32-bit destinations, then one 32-bit pad when that count is
      odd, then the edge data. */
  function LayoutOf(numNodes: nat, numEdges: nat): (l: Layout)
    ensures l.outIdx == 32
    ensures l.outs == l.outIdx + 8 * numNodes
    ensures l.outs + 4 * numEdges <= l.edgeData <= l.outs + 4 * numEdges + 4
    ensures l.edgeData % 8 == 0
  {
    var outs := 32 + 8 * numNodes;
    var afterOuts := outs + 4 * numEdges;
    Layout(32, outs, if numEdges % 2 == 1 then afterOuts + 4 else afterOuts)
  }

  /** count little-endian words of w bytes each, starting at byte off of m. */
  function Words(m: seq<byte>, off: nat, w: nat, count: nat): (s: seq<nat>)
    requires off + w * count <= |m|
    ensures |s| == count
    ensures forall i :: 0 <= i < count ==> s[i] < Pow256(w)
    decreases count
  {
    if count == 0 then []
    else
      assert w * count == w * (count - 1) + w;
      Words(m, off, w, count - 1) + [Decode(m, off + w * (count - 1), w)]
  }

  /** Word i of Words is the w-byte word at byte off + w * i. */
  lemma {:induction false} WordAt(m: seq<byte>, off: nat, w: nat, count: nat, i: nat)
    requires off + w * count <= |m| && i < count
    ensures off + w * i + w <= |m|
    ensures Words(m, off, w, count)[i] == Decode(m, off + w * i, w)
    decreases count
  {
    assert w * count == w * (count - 1) + w;
    if i < count - 1 {
      WordAt(m, off, w, count - 1, i);
    }
  }

  /** The four header words: version 1, sizeof the edge type, node and edge counts. */
  function EncodedHeader(sizeEdgeTy: nat, idx: seq<nat>, dst: seq<nat>): (h: seq<nat>)
    ensures |h| == 4
  {
    [1, sizeEdgeTy, |idx|, |dst|]
  }

  /** The bytes of a V1 file holding the given graph: the writer side of
      the format, used to state what parse recovers. */
  function Encoded(sizeEdgeTy: nat, idx: seq<nat>, dst: seq<nat>, edgeData: seq<byte>): (m: seq<byte>)
    requires sizeEdgeTy < U64 && |idx| < U64 && |dst| < U64
    requires forall i :: 0 <= i < |idx| ==> idx[i] < U64
    requires forall j :: 0 <= j < |dst| ==> dst[j] < U32
    ensures |m| == LayoutOf(|idx|, |dst|).edgeData + |edgeData|
  {
    EncodeAll(EncodedHeader(sizeEdgeTy, idx, dst), 8) + (EncodeAll(idx, 8) + (EncodeAll(dst, 4) + (Pad(|dst|) + edgeData)))
  }

  /** Reading the words at offset |pre| of pre + (EncodeAll(xs) + post) gives xs. */
  lemma {:induction false} ReadBackWords(m: seq<byte>, pre: seq<byte>, xs: seq<nat>, w: nat, post: seq<byte>, i: nat)
    requires forall j :: 0 <= j < |xs| ==> xs[j] < Pow256(w)
    requires m == pre + (EncodeAll(xs, w) + post)
    requires i < |xs|
    ensures |pre| + w * i + w <= |m|
    ensures Decode(m, |pre| + w * i, w) == xs[i]
  {
    var e := EncodeAll(xs, w);
    DecodeEncodeAll(xs, w, i);
    assert w * i == i * w;
    DecodeShift(pre, e + post, w * i, w);
    DecodePrefix(e, post, w * i, w);
  }

  /** Word i of pre + (EncodeAll(xs) + post), counted from offset |pre|, is xs[i]. */
  lemma WordReadBack(m: seq<byte>, pre: seq<byte>, xs: seq<nat>, w: nat, post: seq<byte>, i: nat)
    requires forall j :: 0 <= j < |xs| ==> xs[j] < Pow256(w)
    requires m == pre + (EncodeAll(xs, w) + post)
    requires i < |xs|
    ensures |pre| + w * |xs| <= |m|
    ensures Words(m, |pre|, w, |xs|)[i] == xs[i]
  {
    assert |EncodeAll(xs, w)| == |xs| * w;
    ReadBackWords(m, pre, xs, w, post, i);
    WordAt(m, |pre|, w, |xs|, i);
  }

  /** All the words of pre + (EncodeAll(xs) + post) at offset |pre| read back as xs. */
  lemma WordsReadBack(m: seq<byte>, pre: seq<byte>, xs: seq<nat>, w: nat, post: seq<byte>)
    requires forall j :: 0 <= j < |xs| ==> xs[j] < Pow256(w)
    requires m == pre + (EncodeAll(xs, w) + post)
    ensures |pre| + w * |xs| <= |m|
    ensures Words(m, |pre|, w, |xs|) == xs
  {
    if xs != [] {
      WordReadBack(m, pre, xs, w, post, 0);
    }
    ghost var ws := Words(m, |pre|, w, |xs|);
    forall i | 0 <= i < |xs| ensures ws[i] == xs[i] {
      WordReadBack(m, pre, xs, w, post, i);
    }
  }

  /** The padding that re-aligns the edge data to 8 bytes. */
  function Pad(numEdges: nat): (p: seq<byte>)
    ensures |p| == if numEdges % 2 == 1 then 4 else 0
  {
    if numEdges % 2 == 1 then [0, 0, 0, 0] else []
  }

  /** Header word i of h + rest, where h encodes the header. */
  lemma HeaderWord(header: seq<nat>, rest: seq<byte>, i: nat)
    requires forall j :: 0 <= j < |header| ==> header[j] < Pow256(8)
    requires i < |header|
    ensures 8 * i + 8 <= |EncodeAll(header, 8) + rest|
    ensures Decode(EncodeAll(header, 8) + rest, 8 * i, 8) == header[i]
  {
    DecodeEncodeAll(header, 8, i);
    assert 8 * i == i * 8;
    DecodePrefix(EncodeAll(header, 8), rest, 8 * i, 8);
  }

  /** The word bounds of the format are the 8-byte and 4-byte word ranges. */
  lemma WordRanges()
    ensures U64 == Pow256(8) && U32 == Pow256(4)
  {
    assert Pow256(4) == 256 * 256 * 256 * 256;
  }

  /** Header word i of an encoded file reads back from byte 8 * i. */
  lemma EncodedHeaderWord(sizeEdgeTy: nat, idx: seq<nat>, dst: seq<nat>, edgeData: seq<byte>, i: nat)
    requires sizeEdgeTy < U64 && |idx| < U64 && |dst| < U64
    requires forall i :: 0 <= i < |idx| ==> idx[i] < U64
    requires forall j :: 0 <= j < |dst| ==> dst[j] < U32
    requires i < 4
    ensures 8 * i + 8 <= |Encoded(sizeEdgeTy, idx, dst, edgeData)|
    ensures Decode(Encoded(sizeEdgeTy, idx, dst, edgeData), 8 * i, 8) == EncodedHeader(sizeEdgeTy, idx, dst)[i]
  {
    WordRanges();
    var rest := EncodeAll(idx, 8) + (EncodeAll(dst, 4) + (Pad(|dst|) + edgeData));
    HeaderWord(EncodedHeader(sizeEdgeTy, idx, dst), rest, i);
  }

  lemma EncodedHeaderReads(sizeEdgeTy: nat, idx: seq<nat>, dst: seq<nat>, edgeData: seq<byte>)
    requires sizeEdgeTy < U64 && |idx| < U64 && |dst| < U64
    requires forall i :: 0 <= i < |idx| ==> idx[i] < U64
    requires forall j :: 0 <= j < |dst| ==> dst[j] < U32
    ensures |Encoded(sizeEdgeTy, idx, dst, edgeData)| >= 32
    ensures Decode(Encoded(sizeEdgeTy, idx, dst, edgeData), 0, 8) == 1
    ensures Decode(Encoded(sizeEdgeTy, idx, dst, edgeData), 8, 8) == sizeEdgeTy
    ensures Decode(Encoded(sizeEdgeTy, idx, dst, edgeData), 16, 8) == |idx|
    ensures Decode(Encoded(sizeEdgeTy, idx, dst, edgeData), 24, 8) == |dst|
  {
    EncodedHeaderWord(sizeEdgeTy, idx, dst, edgeData, 0);
    EncodedHeaderWord(sizeEdgeTy, idx, dst, edgeData, 1);
    EncodedHeaderWord(sizeEdgeTy, idx, dst, edgeData, 2);
    EncodedHeaderWord(sizeEdgeTy, idx, dst, edgeData, 3);
  }

  lemma {:induction false} EncodedOutIdxReads(sizeEdgeTy: nat, idx: seq<nat>, dst: seq<nat>, edgeData: seq<byte>)
    requires sizeEdgeTy < U64 && |idx| < U64 && |dst| < U64
    requires forall i :: 0 <= i < |idx| ==> idx[i] < U64
    requires forall j :: 0 <= j < |dst| ==> dst[j] < U32
    ensures 32 + 8 * |idx| <= |Encoded(sizeEdgeTy, idx, dst, edgeData)|
    ensures Words(Encoded(sizeEdgeTy, idx, dst, edgeData), 32, 8, |idx|) == idx
  {
    WordRanges();
    var h := EncodeAll(EncodedHeader(sizeEdgeTy, idx, dst), 8);
    var m := Encoded(sizeEdgeTy, idx, dst, edgeData);
    var rest := EncodeAll(dst, 4) + (Pad(|dst|) + edgeData);
    WordsReadBack(m, h, idx, 8, rest);
  }

  /** The part of a + (b + (c + d)) after the first three pieces is d. */
  lemma SuffixAfter(m: seq<byte>, a: seq<byte>, b: seq<byte>, c: seq<byte>, d: seq<byte>)
    requires m == a + (b + (c + d))
    ensures m[|a| + |b| + |c|..] == d
  {
    var n := |a| + |b| + |c|;
    forall k | 0 <= k < |d| ensures m[n + k] == d[k] {
      assert (b + (c + d))[|b| + |c| + k] == d[k];
    }
  }

  lemma {:induction false} EncodedOutsReads(sizeEdgeTy: nat, idx: seq<nat>, dst: seq<nat>, edgeData: seq<byte>)
    requires sizeEdgeTy < U64 && |idx| < U64 && |dst| < U64
    requires forall i :: 0 <= i < |idx| ==> idx[i] < U64
    requires forall j :: 0 <= j < |dst| ==> dst[j] < U32
    ensures LayoutOf(|idx|, |dst|).outs + 4 * |dst| <= |Encoded(sizeEdgeTy, idx, dst, edgeData)|
    ensures Words(Encoded(sizeEdgeTy, idx, dst, edgeData), LayoutOf(|idx|, |dst|).outs, 4, |dst|) == dst
  {
    WordRanges();
    var h := EncodeAll(EncodedHeader(sizeEdgeTy, idx, dst), 8);
    var a := EncodeAll(idx, 8);
    assert |h| + |a| == LayoutOf(|idx|, |dst|).outs by {
      assert |a| == |idx| * 8;
    }
    var m := Encoded(sizeEdgeTy, idx, dst, edgeData);
    var b := EncodeAll(dst, 4);
    var rest := Pad(|dst|) + edgeData;
    assert m == (h + a) + (b + rest) by {
      assert m == h + (a + (b + rest));
    }
    WordsReadBack(m, h + a, dst, 4, rest);
  }

  lemma {:induction false} EncodedEdgeData(sizeEdgeTy: nat, idx: seq<nat>, dst: seq<nat>, edgeData: seq<byte>)
    requires sizeEdgeTy < U64 && |idx| < U64 && |dst| < U64
    requires forall i :: 0 <= i < |idx| ==> idx[i] < U64
    requires forall j :: 0 <= j < |dst| ==> dst[j] < U32
    ensures Encoded(sizeEdgeTy, idx, dst, edgeData)[LayoutOf(|idx|, |dst|).edgeData..] == edgeData
  {
    WordRanges();
    var m := Encoded(sizeEdgeTy, idx, dst, edgeData);
    var h := EncodeAll(EncodedHeader(sizeEdgeTy, idx, dst), 8);
    var a := EncodeAll(idx, 8);
    var b := EncodeAll(dst, 4);
    assert |h| + |a| + |b| + |Pad(|dst|)| == LayoutOf(|idx|, |dst|).edgeData by {
      assert |a| == |idx| * 8;
      assert |b| == |dst| * 4;
    }
    assert m == h + (a + (b + (Pad(|dst|) + edgeData)));
    SuffixAfter(m[|h|..], a, b, Pad(|dst|), edgeData);
    assert m[|h|..][|a| + |b| + |Pad(|dst|)|..] == m[|h| + |a| + |b| + |Pad(|dst|)|..];
  }

  /** Parsing an encoded file recovers every header word, both arrays and
      the edge data, at the offsets LayoutOf gives. */
  lemma ParseReadsEncoded(sizeEdgeTy: nat, idx: seq<nat>, dst: seq<nat>, edgeData: seq<byte>)
    requires sizeEdgeTy < U64 && |idx| < U64 && |dst| < U64
    requires forall i :: 0 <= i < |idx| ==> idx[i] < U64
    requires forall j :: 0 <= j < |dst| ==> dst[j] < U32
    ensures var m := Encoded(sizeEdgeTy, idx, dst, edgeData);
            var l := LayoutOf(|idx|, |dst|);
            && |m| >= l.outs + 4 * |dst|
            && Decode(m, 0, 8) == 1
            && Decode(m, 8, 8) == sizeEdgeTy
            && Decode(m, 16, 8) == |idx|
            && Decode(m, 24, 8) == |dst|
            && Words(m, l.outIdx, 8, |idx|) == idx
            && Words(m, l.outs, 4, |dst|) == dst
            && m[l.edgeData..] == edgeData
  {
    EncodedHeaderReads(sizeEdgeTy, idx, dst, edgeData);
    EncodedOutIdxReads(sizeEdgeTy, idx, dst, edgeData);
    EncodedOutsReads(sizeEdgeTy, idx, dst, edgeData);
    EncodedEdgeData(sizeEdgeTy, idx, dst, edgeData);
  }

  /** le64toh(*fptr++): the 64-bit word at the cursor, and the cursor moved past it. */
  method ReadWord64(m: seq<byte>, fptr: nat) returns (v: nat, next: nat)
    requires fptr + 8 <= |m|
    ensures v == Decode(m, fptr, 8) && v < U64
    ensures next == fptr + 8
  {
    v := Decode(m, fptr, 8);
    next := fptr + 8;
  }

  class FileGraph {
    var masterMapping: seq<byte>
    var masterLength: nat
    var masterFD: int
    var sizeEdgeTy: nat
    var numNodes: nat
    var numEdges: nat
    /** Byte offset in the mapping of outindexs[0]. */
    var outIdx: nat
    /** Byte offset in the mapping of outedges[0]. */
    var outs: nat
    /** Byte offset in the mapping of the edge data. */
    var edgeData: nat

    /** The default constructor: no mapping and zero counts. */
    constructor ()
      ensures masterMapping == [] && masterLength == 0 && masterFD == 0
      ensures outIdx == 0 && outs == 0 && edgeData == 0
      ensures numEdges == 0 && numNodes == 0
    {
      masterMapping, masterLength, masterFD := [], 0, 0;
      outIdx, outs, edgeData := 0, 0, 0;
      numEdges, numNodes := 0, 0;
      sizeEdgeTy := 0;
    }

    /** The counts are the ones in the mapping's header. */
    ghost predicate HeaderRead()
      reads this
    {
      && |masterMapping| >= 32
      && sizeEdgeTy == Decode(masterMapping, 8, 8)
      && numNodes == Decode(masterMapping, 16, 8)
      && numEdges == Decode(masterMapping, 24, 8)
    }

    /** The array offsets are the ones parse computes from the counts, and
        the mapping is long enough to hold both index arrays. */
    ghost predicate Valid()
      reads this
    {
      && |masterMapping| >= 32
      && masterLength == |masterMapping|
      && Layout(outIdx, outs, edgeData) == LayoutOf(numNodes, numEdges)
      && outs + 4 * numEdges <= |masterMapping|
    }

    /** parse: read the four header words through a moving 64-bit cursor,
        then step the cursor over outindexs and, as a 32-bit cursor, over
        outedges and the optional pad. Only the 32 header bytes are read. */
    method Parse(m: seq<byte>)
      requires |m| >= 32
      modifies this
      ensures sizeEdgeTy == Decode(m, 8, 8)
      ensures numNodes == Decode(m, 16, 8)
      ensures numEdges == Decode(m, 24, 8)
      ensures Layout(outIdx, outs, edgeData) == LayoutOf(numNodes, numEdges)
      ensures masterMapping == old(masterMapping) && masterLength == old(masterLength)
      ensures masterFD == old(masterFD)
    {
      var fptr := 0;
      var version, sizeTy, nodes, edges;
      version, fptr := ReadWord64(m, fptr);
      sizeTy, fptr := ReadWord64(m, fptr);
      nodes, fptr := ReadWord64(m, fptr);
      edges, fptr := ReadWord64(m, fptr);
      var idxAt := fptr;
      fptr := fptr + 8 * nodes;
      var fptr32 := fptr;
      var outsAt := fptr32;
      fptr32 := fptr32 + 4 * edges;
      if edges % 2 == 1 {
        fptr32 := fptr32 + 4;
      }
      assert Layout(idxAt, outsAt, fptr32) == LayoutOf(nodes, edges);
      sizeEdgeTy, numNodes, numEdges := sizeTy, nodes, edges;
      outIdx, outs, edgeData := idxAt, outsAt, fptr32;
    }

    /** structureFromMem: parse the memory (or a private copy of it) and keep
        it as the mapping. A copy holds the same bytes, so both branches
        leave the same state. */
    method StructureFromMem(mem: seq<byte>, clone: bool)
      requires |mem| >= 32
      modifies this
      ensures masterMapping == mem && masterLength == |mem| && HeaderRead()
      ensures Valid() <==> LayoutOf(numNodes, numEdges).outs + 4 * numEdges <= |mem|
      ensures masterFD == old(masterFD)
    {
      masterLength := |mem|;
      if clone {
        var m := mem;
        Parse(m);
        masterMapping := m;
      } else {
        Parse(mem);
        masterMapping := mem;
      }
    }

    /** The sequence edgeid_begin() .. edgeid_end() yields: every out-index. */
    function OutIdxSeq(): (s: seq<nat>)
      requires Valid()
      reads this
      ensures |s| == numNodes
      ensures forall i :: 0 <= i < numNodes ==> s[i] < U64
    {
      Words(masterMapping, outIdx, 8, numNodes)
    }

    /** The sequence nodeid_begin() .. nodeid_end() yields: every edge destination. */
    function OutsSeq(): (s: seq<nat>)
      requires Valid()
      reads this
      ensures |s| == numEdges
      ensures forall j :: 0 <= j < numEdges ==> s[j] < U32
    {
      Words(masterMapping, outs, 4, numEdges)
    }

    /** outindexs[i] (le64toh): the 64-bit word at byte outIdx + 8 * i. */
    function OutIdxWord(i: nat): (v: nat)
      requires Valid() && i < numNodes
      reads this
      ensures v == Decode(masterMapping, outIdx + 8 * i, 8)
      ensures v == OutIdxSeq()[i] && v < U64
    {
      WordAt(masterMapping, outIdx, 8, numNodes, i);
      OutIdxSeq()[i]
    }

    /** outedges[j] (le32toh): the 32-bit word at byte outs + 4 * j. */
    function OutsWord(j: nat): (v: nat)
      requires Valid() && j < numEdges
      reads this
      ensures v == Decode(masterMapping, outs + 4 * j, 4)
      ensures v == OutsSeq()[j] && v < U32
    {
      WordAt(masterMapping, outs, 4, numEdges, j);
      OutsSeq()[j]
    }

    /** The file's adjacency is well formed (see Csr.WellFormed). */
    ghost predicate WellFormed()
      requires Valid()
      reads this
    {
      Csr.WellFormed(OutIdxSeq(), OutsSeq())
    }

    /** raw_neighbor_begin: the index in outs of node n's first edge. */
    function RawNeighborBegin(n: nat): (r: nat)
      requires Valid() && n < numNodes
      reads this
      ensures r == Csr.RangeBegin(OutIdxSeq(), n)
      ensures r < U64
    {
      if n == 0 then 0 else OutIdxWord(n - 1)
    }

    /** raw_neighbor_end: the index in outs one past node n's last edge. */
    function RawNeighborEnd(n: nat): (r: nat)
      requires Valid() && n < numNodes
      reads this
      ensures r == Csr.RangeEnd(OutIdxSeq(), n)
      ensures r < U64
    {
      OutIdxWord(n)
    }

    /** neighborsSize: the pointer distance between the two ends, as a size_t. */
    function NeighborsSize(n: nat): (r: nat)
      requires Valid() && n < numNodes
      reads this
      ensures r < U64
      ensures RawNeighborBegin(n) <= RawNeighborEnd(n) ==> r == RawNeighborEnd(n) - RawNeighborBegin(n)
    {
      (RawNeighborEnd(n) - RawNeighborBegin(n)) % U64
    }

    /** When node n's range is ordered, neighborsSize is its degree. */
    lemma NeighborsSizeIsDegree(n: nat)
      requires Valid() && n < numNodes && Csr.Offset(OutIdxSeq(), n) <= OutIdxSeq()[n]
      ensures NeighborsSize(n) == Csr.Degree(OutIdxSeq(), n)
    {
    }

    /** edge_begin / edge_end: counting iterators over the same bounds. */
    function EdgeBegin(n: nat): (r: nat)
      requires Valid() && n < numNodes
      reads this
      ensures r == RawNeighborBegin(n)
    {
      if n == 0 then 0 else OutIdxWord(n - 1)
    }

    function EdgeEnd(n: nat): (r: nat)
      requires Valid() && n < numNodes
      reads this
      ensures r == RawNeighborEnd(n)
    {
      OutIdxWord(n)
    }

    /** getEdgeDst: the destination of the edge an edge iterator points at. */
    function GetEdgeDst(j: nat): (d: nat)
      requires Valid() && j < numEdges
      reads this
      ensures d == OutsSeq()[j]
      ensures d < U32
    {
      OutsWord(j)
    }

    /** begin / end: node iteration runs over the ids 0 .. numNodes. */
    function Begin(): nat { 0 }

    function End(): (r: nat)
      reads this
    {
      numNodes
    }

    /** containsNode. */
    function ContainsNode(n: nat): (r: bool)
      reads this
      ensures r <==> n < numNodes
    {
      n < numNodes
    }

    /** size / sizeEdges: the 64-bit counts returned as unsigned int. */
    function Size(): (r: nat)
      reads this
      ensures r < U32
      ensures numNodes < U32 ==> r == numNodes
    {
      numNodes % U32
    }

    function SizeEdges(): (r: nat)
      reads this
      ensures r < U32
      ensures numEdges < U32 ==> r == numEdges
    {
      numEdges % U32
    }

    /** The node range and containsNode agree: the nodes are exactly 0 .. numNodes - 1. */
    lemma NodeRangeIsContainsNode(n: nat)
      ensures ContainsNode(n) <==> Begin() <= n < End()
    {
    }

    /** getEdgeIdx: scan node src's edges for the first one that leads to dst. */
    method GetEdgeIdx(src: nat, dst: nat) returns (r: nat)
      requires Valid() && src < numNodes
      requires RawNeighborBegin(src) <= RawNeighborEnd(src) <= numEdges
      ensures r == Csr.FindEdge(OutsSeq(), RawNeighborBegin(src), RawNeighborEnd(src), dst)
    {
      var ii := RawNeighborBegin(src);
      var ee := RawNeighborEnd(src);
      ghost var dsts := OutsSeq();
      while ii != ee
        invariant RawNeighborBegin(src) <= ii <= ee
        invariant Csr.FindEdge(dsts, ii, ee, dst) == Csr.FindEdge(dsts, RawNeighborBegin(src), ee, dst)
        decreases ee - ii
      {
        if OutsWord(ii) == dst {
          return ii;
        }
        ii := ii + 1;
      }
      return Csr.NoEdge;
    }

    /** hasNeighbor: some edge of n1 leads to n2. */
    method HasNeighbor(n1: nat, n2: nat) returns (r: bool)
      requires Valid() && n1 < numNodes
      requires RawNeighborBegin(n1) <= RawNeighborEnd(n1) <= numEdges
      ensures r <==> exists j :: RawNeighborBegin(n1) <= j < RawNeighborEnd(n1) && GetEdgeDst(j) == n2
    {
      var idx := GetEdgeIdx(n1, n2);
      r := idx != Csr.NoEdge;
      if r {
        assert GetEdgeDst(idx) == n2;
      } else {
        forall j | RawNeighborBegin(n1) <= j < RawNeighborEnd(n1) ensures GetEdgeDst(j) != n2 {
          assert OutsSeq()[j] != n2;
        }
      }
    }

    /** swap: exchange all nine fields with other. */
    method Swap(other: FileGraph)
      modifies this, other
      ensures masterMapping == old(other.masterMapping) && other.masterMapping == old(masterMapping)
      ensures masterLength == old(other.masterLength) && other.masterLength == old(masterLength)
      ensures sizeEdgeTy == old(other.sizeEdgeTy) && other.sizeEdgeTy == old(sizeEdgeTy)
      ensures masterFD == old(other.masterFD) && other.masterFD == old(masterFD)
      ensures outIdx == old(other.outIdx) && other.outIdx == old(outIdx)
      ensures outs == old(other.outs) && other.outs == old(outs)
      ensures edgeData == old(other.edgeData) && other.edgeData == old(edgeData)
      ensures numEdges == old(other.numEdges) && other.numEdges == old(numEdges)
      ensures numNodes == old(other.numNodes) && other.numNodes == old(numNodes)
    {
      masterMapping, other.masterMapping := other.masterMapping, masterMapping;
      masterLength, other.masterLength := other.masterLength, masterLength;
      sizeEdgeTy, other.sizeEdgeTy := other.sizeEdgeTy, sizeEdgeTy;
      masterFD, other.masterFD := other.masterFD, masterFD;
      outIdx, other.outIdx := other.outIdx, outIdx;
      outs, other.outs := other.outs, outs;
      edgeData, other.edgeData := other.edgeData, edgeData;
      numEdges, other.numEdges := other.numEdges, numEdges;
      numNodes, other.numNodes := other.numNodes, numNodes;
    }
  }

  /** Swapping twice restores both graphs, and swap keeps each graph valid. */
  method SwapTwiceRestores(a: FileGraph, b: FileGraph)
    requires a.Valid() && b.Valid() && a.HeaderRead() && b.HeaderRead()
    modifies a, b
    ensures a.Valid() && b.Valid() && a.HeaderRead() && b.HeaderRead()
    ensures a.masterMapping == old(a.masterMapping) && b.masterMapping == old(b.masterMapping)
    ensures a.numNodes == old(a.numNodes) && b.numNodes == old(b.numNodes)
    ensures a.numEdges == old(a.numEdges) && b.numEdges == old(b.numEdges)
    ensures a.outIdx == old(a.outIdx) && a.outs == old(a.outs) && a.edgeData == old(a.edgeData)
    ensures b.outIdx == old(b.outIdx) && b.outs == old(b.outs) && b.edgeData == old(b.edgeData)
    ensures a.masterLength == old(a.masterLength) && a.masterFD == old(a.masterFD) && a.sizeEdgeTy == old(a.sizeEdgeTy)
    ensures b.masterLength == old(b.masterLength) && b.masterFD == old(b.masterFD) && b.sizeEdgeTy == old(b.sizeEdgeTy)
  {
    a.Swap(b);
    assert a.Valid() && b.Valid();
    a.Swap(b);
  }
}

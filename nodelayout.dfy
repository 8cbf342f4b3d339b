/**
 * The node-and-edges memory layout shared by LC_Linear_Graph and
 * LC_Linear2_Graph (include/Galois/Graphs/LCGraph.h): each NodeInfo is
 * followed directly by its EdgeInfo records, and the next NodeInfo goes in
 * the first node-sized slot that is not below the end of those edges.
 *
 * Addresses are byte addresses (natural numbers). Sizes.node is
 * sizeof(NodeInfo) and Sizes.edge is sizeof(EdgeInfo).
 */
module NodeLayout {
  import Csr

  /** NodeInfo::numEdges is an int: a node's degree must stay below 2^31
      to be stored there. */
  const IntLimit: nat := 0x8000_0000

  datatype Sizes = Sizes(node: nat, edge: nat)
  {
    /** A NodeInfo and an EdgeInfo (which holds at least the dst pointer)
        each occupy at least one byte. */
    predicate Valid() { node >= 1 && edge >= 1 }
  }

  /** edgeBegin: the address one NodeInfo past the node at a. */
  function EdgeBegin(s: Sizes, a: nat): (r: nat)
    ensures r == a + s.node
  {
    a + s.node
  }

  /** The address of the j-th EdgeInfo of the node at a. */
  function EdgeSlot(s: Sizes, a: nat, j: nat): (r: nat)
    ensures r == EdgeBegin(s, a) + j * s.edge && r >= EdgeBegin(s, a)
  {
    EdgeBegin(s, a) + j * s.edge
  }

  /** ++edge: the next EdgeInfo is one edge size further on. */
  lemma EdgeSlotStep(s: Sizes, a: nat, j: nat)
    ensures EdgeSlot(s, a, j + 1) == EdgeSlot(s, a, j) + s.edge
  {
    Distrib(j, 1, s.edge);
  }

  /** edgeEnd: the slot k EdgeInfo records past edgeBegin. */
  function EdgeEnd(s: Sizes, a: nat, k: nat): (r: nat)
    ensures r == EdgeSlot(s, a, k)
  {
    EdgeBegin(s, a) + k * s.edge
  }

  /** x / d rounded up. */
  function CeilDiv(x: nat, d: nat): nat
    requires d >= 1
  {
    (x + d - 1) / d
  }

  /** Where next() lands for a node at a with k edges: a whole number of
      node slots, ceil((node + k * edge) / node) of them, after a. */
  function NextSlot(s: Sizes, a: nat, k: nat): nat
    requires s.Valid()
  {
    a + s.node * CeilDiv(s.node + k * s.edge, s.node)
  }

  lemma MulLeft(d: nat, p: nat, q: nat)
    requires p <= q
    ensures d * p <= d * q
  {
  }

  lemma MulCancelLt(d: nat, p: nat, q: nat)
    requires d * p < d * q
    ensures p < q
  {
  }

  /** d * CeilDiv(x, d) is a multiple of d in [x, x + d - 1]. */
  lemma CeilDivBounds(x: nat, d: nat)
    requires d >= 1
    ensures x <= d * CeilDiv(x, d) <= x + d - 1
  {
    var c := CeilDiv(x, d);
    assert x + d - 1 == d * c + (x + d - 1) % d;
  }

  /** The multiple of d that CeilDiv picks is the least one not below x. */
  lemma CeilDivIsLeast(x: nat, d: nat, q: nat)
    requires d >= 1 && q >= 1
    requires d * q >= x && d * (q - 1) < x
    ensures q == CeilDiv(x, d)
  {
    var c := CeilDiv(x, d);
    CeilDivBounds(x, d);
    MulCancelLt(d, q - 1, c);
    if c >= 1 {
      assert d * (c - 1) == d * c - d;
      MulCancelLt(d, c - 1, q);
    }
  }

  /** next() returns the first node slot at or past the end of the edges. */
  lemma NextSlotIsFirstFree(s: Sizes, a: nat, k: nat)
    requires s.Valid()
    ensures EdgeEnd(s, a, k) <= NextSlot(s, a, k) < EdgeEnd(s, a, k) + s.node
  {
    var x := s.node + k * s.edge;
    CeilDivBounds(x, s.node);
  }

  /** A node with k edges takes fewer than 2 * node + k * edge bytes. */
  lemma NextSlotBound(s: Sizes, a: nat, k: nat)
    requires s.Valid()
    ensures NextSlot(s, a, k) - a < 2 * s.node + k * s.edge
  {
    NextSlotIsFirstFree(s, a, k);
  }

  /** next(): step node-sized slots from a until the slot is not below the
      end of the k edges. */
  method Next(s: Sizes, a: nat, k: nat) returns (ni: nat)
    requires s.Valid()
    ensures ni == NextSlot(s, a, k)
  {
    ni := a;
    var ei := EdgeEnd(s, a, k);
    ghost var q := 0;
    while ni < ei
      invariant ni == a + s.node * q
      invariant q == 0 || s.node * (q - 1) < s.node + k * s.edge
      decreases ei - ni
    {
      ni := ni + s.node;
      q := q + 1;
    }
    CeilDivIsLeast(s.node + k * s.edge, s.node, q);
  }

  /** The cursor after laying out nodes lo .. hi-1 from address a, each
      followed by its edges; it is also where node hi is placed. */
  function LayoutEnd(s: Sizes, a: nat, idx: seq<nat>, lo: nat, hi: nat): nat
    requires s.Valid() && lo <= hi <= |idx|
    requires Csr.Ordered(idx)
    decreases hi - lo
  {
    if hi == lo then a else NextSlot(s, LayoutEnd(s, a, idx, lo, hi - 1), Csr.Degree(idx, hi - 1))
  }

  /** Laying out nodes lo .. hi-1 takes at most 2 * node bytes per node plus
      edge bytes per edge: the size the graphs allocate. */
  lemma {:induction false} LayoutBound(s: Sizes, a: nat, idx: seq<nat>, lo: nat, hi: nat)
    requires s.Valid() && lo <= hi <= |idx|
    requires Csr.Ordered(idx)
    ensures Csr.Offset(idx, lo) <= Csr.Offset(idx, hi)
    ensures a <= LayoutEnd(s, a, idx, lo, hi)
    ensures LayoutEnd(s, a, idx, lo, hi) - a
            <= (hi - lo) * (2 * s.node) + (Csr.Offset(idx, hi) - Csr.Offset(idx, lo)) * s.edge
    decreases hi - lo
  {
    if hi > lo {
      LayoutBound(s, a, idx, lo, hi - 1);
      var prev := LayoutEnd(s, a, idx, lo, hi - 1);
      var k := Csr.Degree(idx, hi - 1);
      NextSlotBound(s, prev, k);
      NextSlotIsFirstFree(s, prev, k);
      BoundStep(2 * s.node, s.edge, a, prev, NextSlot(s, prev, k), hi - 1 - lo, Csr.Offset(idx, hi - 1) - Csr.Offset(idx, lo), k);
    }
  }

  /** One step of LayoutBound: a node with k edges adds at most one node
      allowance and k edge sizes. */
  lemma BoundStep(nodeAllowance: nat, edge: nat, a: nat, prev: nat, next: nat, n: nat, e: nat, k: nat)
    requires a <= prev <= next
    requires prev - a <= n * nodeAllowance + e * edge
    requires next - prev < nodeAllowance + k * edge
    ensures next - a <= (n + 1) * nodeAllowance + (e + k) * edge
  {
    Distrib(e, k, edge);
    Distrib(n, 1, nodeAllowance);
  }

  lemma Distrib(p: nat, q: nat, d: nat)
    ensures (p + q) * d == p * d + q * d
  {
  }

  /** Later nodes are placed at higher addresses. */
  lemma {:induction false} LayoutMonotone(s: Sizes, a: nat, idx: seq<nat>, lo: nat, m: nat, hi: nat)
    requires s.Valid() && lo <= m <= hi <= |idx|
    requires Csr.Ordered(idx)
    ensures LayoutEnd(s, a, idx, lo, m) <= LayoutEnd(s, a, idx, lo, hi)
    decreases hi - m
  {
    if m < hi {
      LayoutMonotone(s, a, idx, lo, m, hi - 1);
      var prev := LayoutEnd(s, a, idx, lo, hi - 1);
      NextSlotIsFirstFree(s, prev, Csr.Degree(idx, hi - 1));
      assert LayoutEnd(s, a, idx, lo, hi) == NextSlot(s, prev, Csr.Degree(idx, hi - 1));
    }
  }

  /** Node n's edges end at or before the place of node n + 1, and so
      before any later node and before the end of the layout. */
  lemma NodeEdgesEndBeforeNext(s: Sizes, a: nat, idx: seq<nat>, lo: nat, n: nat, hi: nat)
    requires s.Valid() && lo <= n < hi <= |idx|
    requires Csr.Ordered(idx)
    ensures EdgeEnd(s, LayoutEnd(s, a, idx, lo, n), Csr.Degree(idx, n)) <= LayoutEnd(s, a, idx, lo, n + 1)
    ensures LayoutEnd(s, a, idx, lo, n + 1) <= LayoutEnd(s, a, idx, lo, hi)
  {
    NextSlotIsFirstFree(s, LayoutEnd(s, a, idx, lo, n), Csr.Degree(idx, n));
    LayoutMonotone(s, a, idx, lo, n + 1, hi);
  }
}

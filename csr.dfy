/**
 * Compressed-sparse-row (CSR) adjacency as the graph file and the
 * LC_CSR_Graph both store it: idx[n] is one past the last edge of node n
 * (node 0 implicitly starts at edge 0) and dst[j] is the destination of
 * edge j. Shared by the file graph and the in-memory graph models.
 */
module Csr {

  /** ~static_cast<uint64_t>(0): what getEdgeIdx answers when there is no such edge. */
  const NoEdge: nat := 0xFFFF_FFFF_FFFF_FFFF

  /** First edge of node n, for n <= |idx| (n == |idx| gives the end of the last node). */
  function Offset(idx: seq<nat>, n: nat): nat
    requires n <= |idx|
  {
    if n == 0 then 0 else idx[n - 1]
  }

  /** The edge range [RangeBegin, RangeEnd) of node n. */
  function RangeBegin(idx: seq<nat>, n: nat): nat
    requires n < |idx|
  {
    Offset(idx, n)
  }

  function RangeEnd(idx: seq<nat>, n: nat): nat
    requires n < |idx|
  {
    idx[n]
  }

  /** Every node's range is in order: it begins no later than it ends. */
  ghost predicate Ordered(idx: seq<nat>)
  {
    forall n :: 0 <= n < |idx| ==> Offset(idx, n) <= idx[n]
  }

  /** A CSR structure as a well-formed file holds it: every node's range is
      in order and inside the edge array, the last node's range ends at the
      last edge, and every destination is a node. */
  ghost predicate WellFormed(idx: seq<nat>, dst: seq<nat>)
  {
    && Ordered(idx)
    && (forall n :: 0 <= n < |idx| ==> idx[n] <= |dst|)
    && Offset(idx, |idx|) == |dst|
    && (forall j :: 0 <= j < |dst| ==> dst[j] < |idx|)
  }

  /** The number of edges of node n. */
  function Degree(idx: seq<nat>, n: nat): (k: nat)
    requires n < |idx| && Offset(idx, n) <= idx[n]
    ensures Offset(idx, n) + k == Offset(idx, n + 1)
  {
    idx[n] - Offset(idx, n)
  }

  /** Number of edges of the nodes lo .. hi-1, counted node by node. */
  function DegreeSum(idx: seq<nat>, lo: nat, hi: nat): nat
    requires lo <= hi <= |idx|
    requires forall n :: lo <= n < hi ==> Offset(idx, n) <= idx[n]
    decreases hi - lo
  {
    if lo == hi then 0 else (idx[lo] - Offset(idx, lo)) + DegreeSum(idx, lo + 1, hi)
  }

  /** The degrees of consecutive nodes add up to the distance between their offsets. */
  lemma {:induction false} DegreeSumTelescopes(idx: seq<nat>, lo: nat, hi: nat)
    requires lo <= hi <= |idx|
    requires forall n :: lo <= n < hi ==> Offset(idx, n) <= idx[n]
    ensures Offset(idx, lo) <= Offset(idx, hi)
    ensures DegreeSum(idx, lo, hi) == Offset(idx, hi) - Offset(idx, lo)
    decreases hi - lo
  {
    if lo < hi {
      DegreeSumTelescopes(idx, lo + 1, hi);
    }
  }

  /** The first edge j in [lo, hi) with dst[j] == target, or NoEdge. */
  function FindEdge(dst: seq<nat>, lo: nat, hi: nat, target: nat): (r: nat)
    requires lo <= hi <= |dst| && hi <= NoEdge
    ensures r == NoEdge <==> forall j :: lo <= j < hi ==> dst[j] != target
    ensures r != NoEdge ==> lo <= r < hi && dst[r] == target
    ensures r != NoEdge ==> forall j :: lo <= j < r ==> dst[j] != target
    decreases hi - lo
  {
    if lo == hi then NoEdge
    else if dst[lo] == target then lo
    else FindEdge(dst, lo + 1, hi, target)
  }
}

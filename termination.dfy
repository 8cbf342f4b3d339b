/**
 * Model of the per-thread token records of the Dijkstra dual-ring
 * termination detector (include/Galois/Runtime/Termination.h).
 * The thread id that getTID() would return is a parameter.
 */
module Termination {

  /** One thread's token record. */
  datatype TokenHolder = TokenHolder(tokenIsBlack: bool, hasToken: bool, processIsBlack: bool)
  {
    /** TokenHolder::workHappened: mark this thread's process black. */
    function WorkHappened(): (h: TokenHolder)
      ensures h.processIsBlack
      ensures h.tokenIsBlack == tokenIsBlack && h.hasToken == hasToken
    {
      this.(processIsBlack := true)
    }
  }

  /** The default constructor: no token, a white token colour, a black process. */
  function NewTokenHolder(): (h: TokenHolder)
    ensures !h.tokenIsBlack && !h.hasToken && h.processIsBlack
  {
    TokenHolder(false, false, true)
  }

  /** The per-thread storage right after construction: one default holder per thread. */
  function DefaultHolders(n: nat): (hs: seq<TokenHolder>)
    ensures |hs| == n
    ensures forall t :: 0 <= t < n ==> hs[t] == NewTokenHolder()
  {
    seq(n, t => NewTokenHolder())
  }

  /** The holders after thread tid runs initializeThread: thread 0 takes a
      black token, every other thread leaves the holders alone. */
  function InitializeStep(hs: seq<TokenHolder>, tid: nat): (r: seq<TokenHolder>)
    requires tid < |hs|
    ensures |r| == |hs|
    ensures tid == 0 ==> r[0].hasToken && r[0].tokenIsBlack && r[0].processIsBlack == hs[0].processIsBlack
    ensures tid != 0 ==> r == hs
    ensures forall u :: 0 < u < |hs| ==> r[u] == hs[u]
  {
    if tid == 0 then hs[0 := hs[0].(hasToken := true, tokenIsBlack := true)] else hs
  }

  /** The holders after the threads listed in `order` each ran initializeThread, in that order. */
  function InitializeAll(hs: seq<TokenHolder>, order: seq<nat>): (r: seq<TokenHolder>)
    requires forall i :: 0 <= i < |order| ==> order[i] < |hs|
    ensures |r| == |hs|
    decreases |order|
  {
    if order == [] then hs
    else InitializeAll(InitializeStep(hs, order[0]), order[1..])
  }

  /** Number of threads whose record says they hold the token. */
  function TokenCount(hs: seq<TokenHolder>): (c: nat)
    ensures c <= |hs|
  {
    if hs == [] then 0 else (if hs[0].hasToken then 1 else 0) + TokenCount(hs[1..])
  }

  lemma {:induction false} TokenCountNoneAfter(hs: seq<TokenHolder>)
    requires forall u :: 0 <= u < |hs| ==> !hs[u].hasToken
    ensures TokenCount(hs) == 0
  {
    if hs != [] {
      TokenCountNoneAfter(hs[1..]);
    }
  }

  /** Initialising threads never hands a token to any thread but 0, and once
      thread 0 holds a black token it keeps it. */
  lemma {:induction false} InitializeAllKeepsOthers(hs: seq<TokenHolder>, order: seq<nat>)
    requires forall i :: 0 <= i < |order| ==> order[i] < |hs|
    ensures forall u :: 0 < u < |hs| ==> InitializeAll(hs, order)[u] == hs[u]
    ensures |hs| > 0 && hs[0].hasToken && hs[0].tokenIsBlack ==>
              InitializeAll(hs, order)[0].hasToken && InitializeAll(hs, order)[0].tokenIsBlack
    decreases |order|
  {
    if order != [] {
      InitializeAllKeepsOthers(InitializeStep(hs, order[0]), order[1..]);
    }
  }

  /** After default construction and initializeThread on thread 0 (and any
      others, in any order), exactly one thread holds the token: thread 0,
      and its token is black. */
  lemma {:induction false} InitializeSeedsOneBlackToken(n: nat, order: seq<nat>)
    requires forall i :: 0 <= i < |order| ==> order[i] < n
    requires 0 in order
    ensures n > 0
    ensures InitializeAll(DefaultHolders(n), order)[0].hasToken
    ensures InitializeAll(DefaultHolders(n), order)[0].tokenIsBlack
    ensures TokenCount(InitializeAll(DefaultHolders(n), order)) == 1
    decreases |order|
  {
    var hs := DefaultHolders(n);
    var i :| 0 <= i < |order| && order[i] == 0;
    InitializeAllKeepsOthers(hs, order[..i]);
    assert order == order[..i] + order[i..];
    InitializeAllSplit(hs, order[..i], order[i..]);
    var mid := InitializeAll(hs, order[..i]);
    assert order[i..][0] == 0;
    var seeded := InitializeStep(mid, 0);
    InitializeAllKeepsOthers(seeded, order[i+1..]);
    assert order[i..][1..] == order[i+1..];
    var r := InitializeAll(hs, order);
    assert r == InitializeAll(seeded, order[i+1..]);
    forall u | 0 < u < n ensures !r[u].hasToken {
      assert r[u] == seeded[u] == mid[u] == hs[u];
    }
    TokenCountNoneAfter(r[1..]);
    assert r == [r[0]] + r[1..];
  }

  lemma {:induction false} InitializeAllSplit(hs: seq<TokenHolder>, a: seq<nat>, b: seq<nat>)
    requires forall i :: 0 <= i < |a| ==> a[i] < |hs|
    requires forall i :: 0 <= i < |b| ==> b[i] < |hs|
    ensures InitializeAll(hs, a + b) == InitializeAll(InitializeAll(hs, a), b)
    decreases |a|
  {
    if a != [] {
      assert (a + b)[1..] == a[1..] + b;
      InitializeAllSplit(InitializeStep(hs, a[0]), a[1..], b);
    } else {
      assert a + b == b;
    }
  }

  /** The detector: one token holder per thread, and the global flags. */
  class TerminationDetection {
    const data: array<TokenHolder>
    var globalTerm: bool
    var lastWasWhite: bool

    /** The body of the TerminationDetection constructor is not part of this
        model; only the per-thread storage's default construction of every
        holder is. The initial flags are whatever that body chooses, given
        here as parameters. */
    constructor (numThreads: nat, term: bool, lastWhite: bool)
      ensures fresh(data)
      ensures data[..] == DefaultHolders(numThreads)
      ensures globalTerm == term && lastWasWhite == lastWhite
    {
      data := new TokenHolder[numThreads](t => NewTokenHolder());
      globalTerm := term;
      lastWasWhite := lastWhite;
    }

    /** TerminationDetection::workHappened on thread tid. */
    method WorkHappened(tid: nat)
      requires tid < data.Length
      modifies data
      ensures data[..] == old(data[..])[tid := old(data[tid]).WorkHappened()]
      ensures data[tid].processIsBlack
    {
      data[tid] := data[tid].WorkHappened();
    }

    /** initializeThread on thread tid. */
    method InitializeThread(tid: nat)
      requires tid < data.Length
      modifies data
      ensures data[..] == InitializeStep(old(data[..]), tid)
    {
      if tid == 0 {
        data[tid] := data[tid].(hasToken := true);
        data[tid] := data[tid].(tokenIsBlack := true);
      }
    }

    /** globalTermination: reads the flag and changes nothing. */
    method GlobalTermination() returns (r: bool)
      ensures r == globalTerm
    {
      r := globalTerm;
    }
  }

  /** workHappened is idempotent, on one record and on the per-thread storage. */
  lemma WorkHappenedIdempotent(hs: seq<TokenHolder>, tid: nat)
    requires tid < |hs|
    ensures hs[tid].WorkHappened().WorkHappened() == hs[tid].WorkHappened()
    ensures var once := hs[tid := hs[tid].WorkHappened()];
            once[tid := once[tid].WorkHappened()] == once
  {
  }
}

/**
 * Model of galois_insert_bag (include/Galois/Runtime/InsBag.h): a bag
 * that every thread pushes into without locking. Each thread owns a chain
 * of page-sized chunks, newest first; a chunk stores its elements in the
 * slots dbegin .. dend of its page, and has room up to dlast.
 *
 * A chunk's slots are counted in units of sizeof(T) from the start of its
 * page. A thread's chain is the sequence of chunks reached from its head
 * through the next pointers, head first, so a chunk's next is the chunk
 * after it. Pages come from a page allocator modelled by a counter of
 * fresh page ids and the set of pages in use.
 */
module InsBag {
  import opened Wrappers

  /** The sizes newHeader works with: MM::pageSize, sizeof(T) and
      sizeof(header). */
  datatype Layout = Layout(pageSize: nat, sizeT: nat, sizeHeader: nat)
  {
    /** The first data slot: one past the header, which takes one slot, or
        more when a T is smaller than a header. */
    function FirstSlot(): (r: nat)
      requires sizeT >= 1
      ensures r >= 1
      ensures sizeT >= sizeHeader ==> r == 1
    {
      1 + (if sizeT < sizeHeader then sizeHeader / sizeT else 0)
    }

    /** The end of a page's storage: pageSize / sizeof(T) slots. */
    function LastSlot(): nat
      requires sizeT >= 1
    {
      pageSize / sizeT
    }

    /** A page holds the header and at least one element. */
    predicate Valid()
    {
      sizeT >= 1 && FirstSlot() < LastSlot()
    }
  }

  /** A header and its page: the data dbegin .. dend is items. */
  datatype Chunk<T> = Chunk(page: nat, dbegin: nat, dlast: nat, items: seq<T>)
  {
    function DEnd(): (r: nat)
      ensures r == dbegin + |items|
    {
      dbegin + |items|
    }
  }

  /** A chunk on a chain: laid out by newHeader and holding at least one
      element, never more than its storage. */
  predicate ChunkOk<T>(l: Layout, c: Chunk<T>)
    requires l.Valid()
  {
    c.dbegin == l.FirstSlot() && c.dlast == l.LastSlot() && 1 <= |c.items| && c.DEnd() <= c.dlast
  }

  predicate ChainsOk<T>(l: Layout, hs: seq<seq<Chunk<T>>>)
    requires l.Valid()
  {
    forall t, i :: 0 <= t < |hs| && 0 <= i < |hs[t]| ==> ChunkOk(l, hs[t][i])
  }

  /** The elements of a chain in traversal order: chunk by chunk from the
      head, each chunk from dbegin to dend. */
  function ChainItems<T>(ch: seq<Chunk<T>>): seq<T>
  {
    if ch == [] then [] else ch[0].items + ChainItems(ch[1..])
  }

  lemma {:induction false} ChainItemsAppend<T>(a: seq<Chunk<T>>, b: seq<Chunk<T>>)
    ensures ChainItems(a + b) == ChainItems(a) + ChainItems(b)
    decreases |a|
  {
    if a != [] {
      assert (a + b)[0] == a[0] && (a + b)[1..] == a[1..] + b;
      ChainItemsAppend(a[1..], b);
    } else {
      assert a + b == b;
    }
  }

  /** Element i of chunk c sits after the elements of the chunks before c. */
  lemma ItemInChain<T>(ch: seq<Chunk<T>>, c: nat, i: nat)
    requires c < |ch| && i < |ch[c].items|
    ensures ChainItems(ch[..c + 1]) == ChainItems(ch[..c]) + ch[c].items
    ensures |ChainItems(ch[..c])| + i < |ChainItems(ch)|
    ensures ChainItems(ch)[|ChainItems(ch[..c])| + i] == ch[c].items[i]
  {
    assert ch[..c + 1] == ch[..c] + [ch[c]];
    assert ChainItems([ch[c]]) == ch[c].items;
    ChainItemsAppend(ch[..c], [ch[c]]);
    assert ch == ch[..c + 1] + ch[c + 1..];
    ChainItemsAppend(ch[..c + 1], ch[c + 1..]);
  }

  /** The elements of threads 0 .. t-1, thread by thread. */
  function AllItems<T>(hs: seq<seq<Chunk<T>>>, t: nat): seq<T>
    requires t <= |hs|
  {
    if t == 0 then [] else AllItems(hs, t - 1) + ChainItems(hs[t - 1])
  }

  /** Everything in the bag, in the order begin() .. end() visits it. */
  function Contents<T>(hs: seq<seq<Chunk<T>>>): seq<T>
  {
    AllItems(hs, |hs|)
  }

  lemma {:induction false} AllItemsPrefix<T>(hs: seq<seq<Chunk<T>>>, t: nat, u: nat)
    requires t <= u <= |hs|
    ensures AllItems(hs, t) <= AllItems(hs, u)
    decreases u - t
  {
    if t < u {
      AllItemsPrefix(hs, t, u - 1);
    }
  }

  /** Element j of thread t's chain is element |AllItems(hs, t)| + j of the bag. */
  lemma ThreadItemInBag<T>(hs: seq<seq<Chunk<T>>>, t: nat, j: nat)
    requires t < |hs| && j < |ChainItems(hs[t])|
    ensures |AllItems(hs, t)| + j < |AllItems(hs, t + 1)| <= |Contents(hs)|
    ensures Contents(hs)[|AllItems(hs, t)| + j] == ChainItems(hs[t])[j]
  {
    AllItemsPrefix(hs, t + 1, |hs|);
  }

  /** An iterator's state: the thread thr, the chunk p (its index on thr's
      chain, None for a null header pointer) and the slot v (0 for null). */
  datatype Pos = Pos(thr: nat, p: Option<nat>, v: nat)

  /** The iterator points at an element. */
  predicate IsData<T>(hs: seq<seq<Chunk<T>>>, q: Pos)
  {
    && q.thr < |hs| && q.p.Some? && q.p.value < |hs[q.thr]|
    && hs[q.thr][q.p.value].dbegin <= q.v < hs[q.thr][q.p.value].DEnd()
  }

  /** The iterator end() returns: past the last thread, no header, no slot. */
  function EndPos<T>(hs: seq<seq<Chunk<T>>>): Pos
  {
    Pos(|hs|, None, 0)
  }

  /** Where an iterator built for thread t stands: the first element of the
      first thread from t on whose head is not null, or end(). */
  function Canon<T>(hs: seq<seq<Chunk<T>>>, t: nat): (q: Pos)
    requires t <= |hs|
    ensures q.thr >= t
    decreases |hs| - t
  {
    if t == |hs| then EndPos(hs)
    else if hs[t] != [] then Pos(t, Some(0), hs[t][0].dbegin)
    else Canon(hs, t + 1)
  }

  /** operator++: the next slot of the chunk, else the first slot of the
      next chunk, else the first element of a later thread. */
  function Step<T>(hs: seq<seq<Chunk<T>>>, q: Pos): Pos
    requires IsData(hs, q)
  {
    var ch, c := hs[q.thr], q.p.value;
    if q.v + 1 != ch[c].DEnd() then Pos(q.thr, Some(c), q.v + 1)
    else if c + 1 < |ch| then Pos(q.thr, Some(c + 1), ch[c + 1].dbegin)
    else Canon(hs, q.thr + 1)
  }

  /** How many elements a traversal has visited before reaching q. */
  function Rank<T>(hs: seq<seq<Chunk<T>>>, q: Pos): nat
    requires IsData(hs, q) || q == EndPos(hs)
  {
    if q == EndPos(hs) then |Contents(hs)|
    else
      var ch, c := hs[q.thr], q.p.value;
      |AllItems(hs, q.thr)| + |ChainItems(ch[..c])| + (q.v - ch[c].dbegin)
  }

  /** The element an iterator at q dereferences to. */
  function At<T>(hs: seq<seq<Chunk<T>>>, q: Pos): T
    requires IsData(hs, q)
  {
    hs[q.thr][q.p.value].items[q.v - hs[q.thr][q.p.value].dbegin]
  }

  /** An iterator built for thread t points at the first element of threads
      t onwards, or is end(). */
  lemma {:induction false} CanonRank<T>(l: Layout, hs: seq<seq<Chunk<T>>>, t: nat)
    requires l.Valid() && ChainsOk(l, hs) && t <= |hs|
    ensures IsData(hs, Canon(hs, t)) || Canon(hs, t) == EndPos(hs)
    ensures Rank(hs, Canon(hs, t)) == |AllItems(hs, t)|
    decreases |hs| - t
  {
    if t < |hs| {
      if hs[t] != [] {
        assert ChunkOk(l, hs[t][0]);
        assert hs[t][..0] == [];
      } else {
        CanonRank(l, hs, t + 1);
      }
    }
  }

  /** A traversal at an element stands inside its thread's share of the
      bag, and dereferences to the bag's element at its rank. */
  lemma DataRank<T>(hs: seq<seq<Chunk<T>>>, q: Pos)
    requires IsData(hs, q)
    ensures |AllItems(hs, q.thr)| <= Rank(hs, q) < |AllItems(hs, q.thr + 1)| <= |Contents(hs)|
    ensures Contents(hs)[Rank(hs, q)] == At(hs, q)
    ensures ChainItems(hs[q.thr])[Rank(hs, q) - |AllItems(hs, q.thr)|] == At(hs, q)
  {
    var ch, c := hs[q.thr], q.p.value;
    var i := q.v - ch[c].dbegin;
    ItemInChain(ch, c, i);
    ThreadItemInBag(hs, q.thr, |ChainItems(ch[..c])| + i);
  }

  /** operator++ moves a traversal on by exactly one element, staying in
      its thread or moving to where an iterator for the next thread stands. */
  lemma StepRank<T>(l: Layout, hs: seq<seq<Chunk<T>>>, q: Pos)
    requires l.Valid() && ChainsOk(l, hs) && IsData(hs, q)
    ensures IsData(hs, Step(hs, q)) || Step(hs, q) == EndPos(hs)
    ensures Rank(hs, Step(hs, q)) == Rank(hs, q) + 1
    ensures (IsData(hs, Step(hs, q)) && Step(hs, q).thr == q.thr) || Step(hs, q) == Canon(hs, q.thr + 1)
  {
    var ch, c := hs[q.thr], q.p.value;
    ItemInChain(ch, c, q.v - ch[c].dbegin);
    if q.v + 1 != ch[c].DEnd() {
    } else if c + 1 < |ch| {
      assert ChunkOk(l, ch[c + 1]);
    } else {
      assert ch[..c + 1] == ch;
      CanonRank(l, hs, q.thr + 1);
    }
  }

  /** A step of a traversal of thread t from local_begin(): the position
      stays in t, or reaches local_end(), having visited one more of t's
      elements. */
  lemma LocalStep<T>(l: Layout, hs: seq<seq<Chunk<T>>>, t: nat, q: Pos)
    requires l.Valid() && ChainsOk(l, hs) && IsData(hs, q) && q.thr == t
    ensures IsData(hs, Step(hs, q)) || Step(hs, q) == EndPos(hs)
    ensures (IsData(hs, Step(hs, q)) && Step(hs, q).thr == t) || Step(hs, q) == Canon(hs, t + 1)
    ensures |AllItems(hs, t)| <= Rank(hs, q) < Rank(hs, Step(hs, q)) <= |AllItems(hs, t + 1)|
    ensures Rank(hs, Step(hs, q)) == Rank(hs, q) + 1
    ensures Rank(hs, q) < |Contents(hs)|
    ensures ChainItems(hs[t])[..Rank(hs, Step(hs, q)) - |AllItems(hs, t)|]
            == ChainItems(hs[t])[..Rank(hs, q) - |AllItems(hs, t)|] + [Contents(hs)[Rank(hs, q)]]
  {
    DataRank(hs, q);
    StepRank(l, hs, q);
    var q' := Step(hs, q);
    if IsData(hs, q') && q'.thr == t {
      DataRank(hs, q');
    } else {
      CanonRank(l, hs, t + 1);
    }
    var ch, k := ChainItems(hs[t]), Rank(hs, q) - |AllItems(hs, t)|;
    TakeOneMore(ch, k);
  }

  /** A step of a traversal from begin(): one more element of the bag
      visited. */
  lemma GlobalStep<T>(l: Layout, hs: seq<seq<Chunk<T>>>, q: Pos)
    requires l.Valid() && ChainsOk(l, hs) && IsData(hs, q)
    ensures IsData(hs, Step(hs, q)) || Step(hs, q) == EndPos(hs)
    ensures Rank(hs, q) < Rank(hs, Step(hs, q)) <= |Contents(hs)|
    ensures Contents(hs)[..Rank(hs, Step(hs, q))] == Contents(hs)[..Rank(hs, q)] + [At(hs, q)]
  {
    DataRank(hs, q);
    StepRank(l, hs, q);
    var q' := Step(hs, q);
    if IsData(hs, q') {
      DataRank(hs, q');
    }
    var c, k := Contents(hs), Rank(hs, q);
    TakeOneMore(c, k);
  }

  lemma TakeOneMore<T>(s: seq<T>, k: nat)
    requires k < |s|
    ensures s[..k + 1] == s[..k] + [s[k]]
  {
  }

  /** The pages of every chunk on every chain. */
  function Pages<T>(hs: seq<seq<Chunk<T>>>): set<nat>
  {
    set t, i | 0 <= t < |hs| && 0 <= i < |hs[t]| :: hs[t][i].page
  }

  /** The pages of the head chunks. */
  function HeadPages<T>(hs: seq<seq<Chunk<T>>>): set<nat>
  {
    set t | 0 <= t < |hs| && hs[t] != [] :: hs[t][0].page
  }

  /** The chain after push: when there is no head chunk or it is full, a
      fresh chunk on page pg holding val becomes the head, its next the old
      head; otherwise val goes in the head chunk's slot dend. */
  function PushChain<T>(l: Layout, ch: seq<Chunk<T>>, val: T, pg: nat): seq<Chunk<T>>
    requires l.Valid()
  {
    if ch == [] || ch[0].DEnd() == ch[0].dlast then [Chunk(pg, l.FirstSlot(), l.LastSlot(), [val])] + ch
    else [ch[0].(items := ch[0].items + [val])] + ch[1..]
  }

  /** push stores exactly one more element, val, in the chain: first in
      traversal order when it opens a new chunk (chunks are visited newest
      first), right after the head chunk's elements otherwise. */
  lemma PushChainItems<T>(l: Layout, ch: seq<Chunk<T>>, val: T, pg: nat)
    requires l.Valid()
    ensures ch == [] || ch[0].DEnd() == ch[0].dlast ==> ChainItems(PushChain(l, ch, val, pg)) == [val] + ChainItems(ch)
    ensures ch != [] && ch[0].DEnd() != ch[0].dlast ==>
              ChainItems(PushChain(l, ch, val, pg)) == ch[0].items + [val] + ChainItems(ch[1..])
    ensures multiset(ChainItems(PushChain(l, ch, val, pg))) == multiset(ChainItems(ch)) + multiset{val}
  {
    var r := PushChain(l, ch, val, pg);
    assert r[1..] == (if ch == [] || ch[0].DEnd() == ch[0].dlast then ch else ch[1..]);
    if ch != [] {
      assert ChainItems(ch) == ch[0].items + ChainItems(ch[1..]);
    }
  }

  /** push allocates a chunk exactly when the thread has none or its head
      chunk is full; every chunk stays laid out, in bounds and non-empty. */
  lemma PushChainShape<T>(l: Layout, ch: seq<Chunk<T>>, val: T, pg: nat)
    requires l.Valid() && forall i :: 0 <= i < |ch| ==> ChunkOk(l, ch[i])
    ensures |PushChain(l, ch, val, pg)| == if ch == [] || ch[0].DEnd() == ch[0].dlast then |ch| + 1 else |ch|
    ensures forall i :: 0 <= i < |PushChain(l, ch, val, pg)| ==> ChunkOk(l, PushChain(l, ch, val, pg)[i])
    ensures ch == [] || ch[0].DEnd() == ch[0].dlast ==> PushChain(l, ch, val, pg)[0].page == pg
    ensures ch == [] || ch[0].DEnd() == ch[0].dlast ==> PushChain(l, ch, val, pg)[1..] == ch
  {
  }

  /** The pages of one chain. */
  function ChainPages<T>(ch: seq<Chunk<T>>): set<nat>
  {
    set i | 0 <= i < |ch| :: ch[i].page
  }

  /** Replacing thread t's chain by one with the extra pages x adds exactly
      x to the pages of the bag. */
  lemma PagesUpdate<T>(hs: seq<seq<Chunk<T>>>, t: nat, ch: seq<Chunk<T>>, x: set<nat>)
    requires t < |hs| && ChainPages(ch) == ChainPages(hs[t]) + x
    ensures Pages(hs[t := ch]) == Pages(hs) + x
  {
    var hs': seq<seq<Chunk<T>>> := hs[t := ch];
    forall pg | pg in Pages(hs')
      ensures pg in Pages(hs) + x
    {
      var u, i :| 0 <= u < |hs'| && 0 <= i < |hs'[u]| && hs'[u][i].page == pg;
      if u == t {
        assert pg in ChainPages(ch);
      } else {
        assert hs[u][i].page == pg;
      }
    }
    forall pg | pg in Pages(hs) + x
      ensures pg in Pages(hs')
    {
      if pg in Pages(hs) {
        var u, i :| 0 <= u < |hs| && 0 <= i < |hs[u]| && hs[u][i].page == pg;
        if u == t {
          assert pg in ChainPages(ch);
          var j :| 0 <= j < |ch| && ch[j].page == pg;
          assert hs'[t][j].page == pg;
        } else {
          assert hs'[u][i].page == pg;
        }
      } else {
        assert pg in ChainPages(ch);
        var j :| 0 <= j < |ch| && ch[j].page == pg;
        assert hs'[t][j].page == pg;
      }
    }
  }

  /** push adds the fresh page to the chain's pages when it opens a chunk,
      and no page otherwise. */
  lemma PushChainPages<T>(l: Layout, ch: seq<Chunk<T>>, val: T, pg: nat)
    requires l.Valid()
    ensures ChainPages(PushChain(l, ch, val, pg)) ==
              ChainPages(ch) + (if ch == [] || ch[0].DEnd() == ch[0].dlast then {pg} else {})
  {
    var r := PushChain(l, ch, val, pg);
    if ch == [] || ch[0].DEnd() == ch[0].dlast {
      assert forall i :: 0 < i < |r| ==> r[i] == ch[i - 1];
      forall q | q in ChainPages(ch) ensures q in ChainPages(r) {
        var i :| 0 <= i < |ch| && ch[i].page == q;
        assert r[i + 1].page == q;
      }
      assert r[0].page == pg;
      forall q | q in ChainPages(r) ensures q in ChainPages(ch) + {pg} {
        var i :| 0 <= i < |r| && r[i].page == q;
        if i > 0 {
          assert ch[i - 1].page == q;
        }
      }
    } else {
      assert |r| == |ch| && forall i :: 0 <= i < |r| ==> r[i].page == ch[i].page;
      forall q | q in ChainPages(ch) ensures q in ChainPages(r) {
        var i :| 0 <= i < |ch| && ch[i].page == q;
        assert r[i].page == q;
      }
      forall q | q in ChainPages(r) ensures q in ChainPages(ch) {
        var i :| 0 <= i < |r| && r[i].page == q;
        assert ch[i].page == q;
      }
    }
  }

  /** Changing thread t's chain leaves the elements of the threads before
      it alone. */
  lemma {:induction false} AllItemsUpdateBefore<T>(hs: seq<seq<Chunk<T>>>, t: nat, ch: seq<Chunk<T>>, u: nat)
    requires u <= t < |hs|
    ensures AllItems(hs[t := ch], u) == AllItems(hs, u)
    decreases u
  {
    if u > 0 {
      AllItemsUpdateBefore(hs, t, ch, u - 1);
      assert hs[t := ch][u - 1] == hs[u - 1];
    }
  }

  /** Changing one thread's chain changes the bag's contents by exactly the
      difference between the two chains. */
  lemma {:induction false} AllItemsUpdate<T>(hs: seq<seq<Chunk<T>>>, t: nat, ch: seq<Chunk<T>>, u: nat)
    requires t < u <= |hs|
    ensures multiset(AllItems(hs[t := ch], u)) + multiset(ChainItems(hs[t]))
            == multiset(AllItems(hs, u)) + multiset(ChainItems(ch))
    decreases u
  {
    var hs' := hs[t := ch];
    var prev', prev := AllItems(hs', u - 1), AllItems(hs, u - 1);
    var last', last := ChainItems(hs'[u - 1]), ChainItems(hs[u - 1]);
    assert AllItems(hs', u) == prev' + last';
    assert AllItems(hs, u) == prev + last;
    assert multiset(prev' + last') == multiset(prev') + multiset(last');
    assert multiset(prev + last) == multiset(prev) + multiset(last);
    var h, c := multiset(ChainItems(hs[t])), multiset(ChainItems(ch));
    if u - 1 == t {
      AllItemsUpdateBefore(hs, t, ch, t);
      assert last' == ChainItems(ch);
      MultisetSwap(multiset(prev), c, h);
    } else {
      AllItemsUpdate(hs, t, ch, u - 1);
      assert last' == last;
      var l := multiset(last);
      MultisetSwap(multiset(prev'), l, h);
      MultisetSwap(multiset(prev), c, l);
    }
  }

  lemma MultisetSwap<T>(a: multiset<T>, b: multiset<T>, c: multiset<T>)
    ensures (a + b) + c == (a + c) + b
  {
    forall x ensures ((a + b) + c)[x] == ((a + c) + b)[x] {
    }
  }

  /** push by thread t adds exactly val to the bag. */
  lemma PushContents<T>(l: Layout, hs: seq<seq<Chunk<T>>>, t: nat, val: T, pg: nat)
    requires l.Valid() && t < |hs|
    ensures multiset(Contents(hs[t := PushChain(l, hs[t], val, pg)])) == multiset(Contents(hs)) + multiset{val}
  {
    var ch := PushChain(l, hs[t], val, pg);
    var a', a := multiset(Contents(hs[t := ch])), multiset(Contents(hs));
    var o := multiset(ChainItems(hs[t]));
    AllItemsUpdate(hs, t, ch, |hs|);
    PushChainItems(l, hs[t], val, pg);
    assert a' + o == (a + multiset{val}) + o;
    MultisetCancel(a', a + multiset{val}, o);
  }

  /** Replacing one thread's chain by a laid-out chain keeps every chain
      laid out. */
  lemma ChainsOkUpdate<T>(l: Layout, hs: seq<seq<Chunk<T>>>, t: nat, ch: seq<Chunk<T>>)
    requires l.Valid() && t < |hs| && ChainsOk(l, hs)
    requires forall i :: 0 <= i < |ch| ==> ChunkOk(l, ch[i])
    ensures ChainsOk(l, hs[t := ch])
  {
    var hs' := hs[t := ch];
    forall u, i | 0 <= u < |hs'| && 0 <= i < |hs'[u]| ensures ChunkOk(l, hs'[u][i]) {
      if u != t {
        assert hs'[u] == hs[u];
      }
    }
  }

  lemma MultisetCancel<T>(a: multiset<T>, b: multiset<T>, c: multiset<T>)
    requires a + c == b + c
    ensures a == b
  {
    forall x ensures a[x] == b[x] {
      assert (a + c)[x] == a[x] + c[x];
      assert (b + c)[x] == b[x] + c[x];
    }
  }

  /** The pages of the first x head chunks. */
  lemma HeadPagesStep<T>(hs: seq<seq<Chunk<T>>>, x: nat)
    requires x < |hs|
    ensures HeadPages(hs[..x + 1]) == HeadPages(hs[..x]) + (if hs[x] != [] then {hs[x][0].page} else {})
  {
    var a, b := hs[..x + 1], hs[..x];
    assert forall t :: 0 <= t < x ==> a[t] == b[t];
    if hs[x] != [] {
      assert hs[x][0].page in HeadPages(a) by { assert a[x] == hs[x]; }
    }
  }

  lemma PagesStep<T>(hs: seq<seq<Chunk<T>>>, x: nat)
    requires x < |hs|
    ensures Pages(hs[..x + 1]) == Pages(hs[..x]) + ChainPages(hs[x])
  {
    var a, b := hs[..x + 1], hs[..x];
    assert forall t :: 0 <= t < x ==> a[t] == b[t];
    assert a[x] == hs[x];
    forall q | q in ChainPages(hs[x]) ensures q in Pages(a) {
      var i :| 0 <= i < |hs[x]| && hs[x][i].page == q;
      assert a[x][i].page == q;
    }
  }

  lemma ChainPagesStep<T>(ch: seq<Chunk<T>>, i: nat)
    requires i < |ch|
    ensures ChainPages(ch[..i + 1]) == ChainPages(ch[..i]) + {ch[i].page}
  {
    var a, b := ch[..i + 1], ch[..i];
    assert forall j :: 0 <= j < i ==> a[j] == b[j];
    assert a[i] == ch[i];
  }

  /** With every chain empty, begin() is end(). */
  lemma {:induction false} EmptyBagCanon<T>(hs: seq<seq<Chunk<T>>>, t: nat)
    requires t <= |hs| && forall u :: 0 <= u < |hs| ==> hs[u] == []
    ensures Canon(hs, t) == EndPos(hs)
    decreases |hs| - t
  {
    if t < |hs| {
      EmptyBagCanon(hs, t + 1);
    }
  }

  /** clear() as written frees only each thread's head chunk: in a bag of
      one thread with two chunks, on pages 0 and 1, page 1 is still in use
      once every head is null, and no chain reaches it. */
  lemma ClearLeaksLaterChunks<T>(a: T, b: T)
    ensures var hs := [[Chunk(0, 1, 2, [a]), Chunk(1, 1, 2, [b])]];
            Pages(hs) == {0, 1} && Pages(hs) - HeadPages(hs) == {1} && Pages<T>([[]]) == {}
  {
    var hs: seq<seq<Chunk<T>>> := [[Chunk(0, 1, 2, [a]), Chunk(1, 1, 2, [b])]];
    assert hs[0][0].page == 0 && hs[0][1].page == 1;
    assert HeadPages(hs) == {0};
  }

  /** No two chunks of the bag share a page, as when every page came
      fresh from the allocator. */
  ghost predicate DistinctPages<T>(hs: seq<seq<Chunk<T>>>)
  {
    forall t1, i1, t2, i2 ::
      (0 <= t1 < |hs| && 0 <= i1 < |hs[t1]| && 0 <= t2 < |hs| && 0 <= i2 < |hs[t2]| && (t1 != t2 || i1 != i2))
      ==> hs[t1][i1].page != hs[t2][i2].page
  }

  /** clear() as written leaks in every bag where some thread holds a
      second chunk: that chunk's page is on a chain but is no head page,
      so it stays in use (Clear removes only HeadPages) once every head
      is null. */
  lemma ClearLeaksSecondChunk<T>(hs: seq<seq<Chunk<T>>>, t: nat)
    requires DistinctPages(hs) && t < |hs| && |hs[t]| >= 2
    ensures hs[t][1].page in Pages(hs) - HeadPages(hs)
  {
    assert hs[t][1].page in Pages(hs);
  }

  /** A reference to an element: its page and its slot. */
  datatype Ref = Ref(page: nat, slot: nat)

  class InsertBag<T> {
    const layout: Layout
    /** heads: the head chunk of each thread's chain, as the chain itself. */
    var heads: array<seq<Chunk<T>>>
    /** The page allocator: the next fresh page and the pages in use. */
    var nextPage: nat
    var inUse: set<nat>

    /** Every head starts null. */
    constructor (layout: Layout, numThreads: nat)
      requires layout.Valid()
      ensures this.layout == layout && fresh(heads) && heads.Length == numThreads
      ensures forall t :: 0 <= t < numThreads ==> heads[t] == []
      ensures inUse == {} && Valid() && NoLeak()
    {
      this.layout := layout;
      heads := new seq<Chunk<T>>[numThreads](_ => []);
      nextPage := 0;
      inUse := {};
      new;
      assert Pages(heads[..]) == {};
    }

    /** Every chunk on a chain is laid out and non-empty, its page is in
        use, and pages in use were handed out by the allocator. */
    ghost predicate Valid()
      reads this, heads
    {
      && layout.Valid() && ChainsOk(layout, heads[..]) && Pages(heads[..]) <= inUse
      && forall pg :: pg in inUse ==> pg < nextPage
    }

    /** Every page in use is on some chain. */
    ghost predicate NoLeak()
      reads this, heads
    {
      inUse == Pages(heads[..])
    }

    /** newHeader: a fresh page, its data slots empty at the first slot
        past the header, its storage ending pageSize / sizeof(T) slots in. */
    method NewHeader() returns (h: Chunk<T>)
      requires layout.Valid()
      modifies this
      ensures h == Chunk(old(nextPage), layout.FirstSlot(), layout.LastSlot(), [])
      ensures nextPage == old(nextPage) + 1 && inUse == old(inUse) + {h.page}
      ensures heads == old(heads)
    {
      var pg := nextPage;
      nextPage := nextPage + 1;
      inUse := inUse + {pg};
      var offset := 1;
      if layout.sizeT < layout.sizeHeader {
        offset := offset + layout.sizeHeader / layout.sizeT;
      }
      h := Chunk(pg, offset, layout.pageSize / layout.sizeT, []);
    }

    /** insHeader: h becomes thread tid's head, its next the old head. */
    method InsHeader(tid: nat, h: Chunk<T>)
      requires tid < heads.Length
      modifies heads
      ensures heads[tid] == [h] + old(heads[tid])
      ensures forall t :: 0 <= t < heads.Length && t != tid ==> heads[t] == old(heads[t])
    {
      heads[tid] := [h] + heads[tid];
    }

    /** push, by thread tid: start a new chunk when the thread has none or
        its head chunk is full, then store val at dend and bump dend. */
    method Push(tid: nat, val: T) returns (r: Ref)
      requires Valid() && tid < heads.Length
      modifies this, heads
      ensures heads == old(heads) && Valid() && (old(NoLeak()) ==> NoLeak())
      ensures heads[tid] == PushChain(layout, old(heads[tid]), val, old(nextPage))
      ensures forall t :: 0 <= t < heads.Length && t != tid ==> heads[t] == old(heads[t])
      ensures old(heads[tid]) == [] || old(heads[tid][0].DEnd()) == old(heads[tid][0].dlast) ==>
                nextPage == old(nextPage) + 1 && inUse == old(inUse) + {old(nextPage)}
      ensures old(heads[tid]) != [] && old(heads[tid][0].DEnd()) != old(heads[tid][0].dlast) ==>
                nextPage == old(nextPage) && inUse == old(inUse)
      ensures multiset(Contents(heads[..])) == multiset(old(Contents(heads[..]))) + multiset{val}
      ensures r == Ref(heads[tid][0].page, heads[tid][0].DEnd() - 1)
      ensures heads[tid][0].items[|heads[tid][0].items| - 1] == val
    {
      ghost var hs := heads[..];
      ghost var pg := nextPage;
      var H := heads[tid];
      if H == [] || H[0].DEnd() == H[0].dlast {
        var h := NewHeader();
        InsHeader(tid, h);
        assert heads[tid][1..] == H;
      }
      var head := heads[tid][0];
      heads[tid] := [head.(items := head.items + [val])] + heads[tid][1..];
      r := Ref(head.page, head.DEnd());
      assert heads[tid] == PushChain(layout, hs[tid], val, pg) by {
        if H == [] || H[0].DEnd() == H[0].dlast {
          assert head.items + [val] == [val];
        }
      }
      assert heads[..] == hs[tid := PushChain(layout, hs[tid], val, pg)];
      PushChainShape(layout, hs[tid], val, pg);
      ChainsOkUpdate(layout, hs, tid, PushChain(layout, hs[tid], val, pg));
      PushChainPages(layout, hs[tid], val, pg);
      PagesUpdate(hs, tid, PushChain(layout, hs[tid], val, pg),
                  if H == [] || H[0].DEnd() == H[0].dlast then {pg} else {});
      PushContents(layout, hs, tid, val, pg);
    }

    /** push_back: push, dropping the reference. */
    method PushBack(tid: nat, val: T)
      requires Valid() && tid < heads.Length
      modifies this, heads
      ensures heads == old(heads) && Valid() && (old(NoLeak()) ==> NoLeak())
      ensures heads[tid] == PushChain(layout, old(heads[tid]), val, old(nextPage))
      ensures forall t :: 0 <= t < heads.Length && t != tid ==> heads[t] == old(heads[t])
      ensures multiset(Contents(heads[..])) == multiset(old(Contents(heads[..]))) + multiset{val}
    {
      var _ := Push(tid, val);
    }

    /** destruct, as written: for every thread, unlink the head chunk and
        free its page; the chunks after it stay in use. */
    method Destruct()
      requires Valid()
      modifies this, heads
      ensures heads == old(heads) && nextPage == old(nextPage)
      ensures forall x :: 0 <= x < heads.Length ==>
                heads[x] == if old(heads[x]) == [] then [] else old(heads[x])[1..]
      ensures inUse == old(inUse) - HeadPages(old(heads[..]))
    {
      ghost var hs := heads[..];
      var x := 0;
      while x < heads.Length
        invariant 0 <= x <= heads.Length == |hs| && heads == old(heads) && nextPage == old(nextPage)
        invariant forall y :: 0 <= y < x ==> heads[y] == if hs[y] == [] then [] else hs[y][1..]
        invariant forall y :: x <= y < heads.Length ==> heads[y] == hs[y]
        invariant inUse == old(inUse) - HeadPages(hs[..x])
        decreases heads.Length - x
      {
        HeadPagesStep(hs, x);
        var h := heads[x];
        if h != [] {
          heads[x] := h[1..];
          inUse := inUse - {h[0].page};
        }
        x := x + 1;
      }
      assert hs[..x] == hs;
    }

    /** clear: destruct, then null every head. */
    method Clear()
      requires Valid()
      modifies this, heads
      ensures heads == old(heads) && nextPage == old(nextPage)
      ensures forall x :: 0 <= x < heads.Length ==> heads[x] == []
      ensures inUse == old(inUse) - HeadPages(old(heads[..]))
      ensures Canon(heads[..], 0) == EndPos(heads[..])
    {
      Destruct();
      var x := 0;
      while x < heads.Length
        invariant 0 <= x <= heads.Length && heads == old(heads) && nextPage == old(nextPage)
        invariant inUse == old(inUse) - HeadPages(old(heads[..]))
        invariant forall y :: 0 <= y < x ==> heads[y] == []
        decreases heads.Length - x
      {
        heads[x] := [];
        x := x + 1;
      }
      EmptyBagCanon(heads[..], 0);
    }

    /** clear, freeing the page of every chunk on every chain: a bag with
        no leak is left with no page in use. */
    method ClearAll()
      requires Valid()
      modifies this, heads
      ensures heads == old(heads) && nextPage == old(nextPage)
      ensures forall x :: 0 <= x < heads.Length ==> heads[x] == []
      ensures inUse == old(inUse) - Pages(old(heads[..]))
      ensures old(NoLeak()) ==> inUse == {} && NoLeak()
    {
      ghost var hs := heads[..];
      var x := 0;
      while x < heads.Length
        invariant 0 <= x <= heads.Length == |hs| && heads == old(heads) && nextPage == old(nextPage)
        invariant forall y :: 0 <= y < x ==> heads[y] == []
        invariant forall y :: x <= y < heads.Length ==> heads[y] == hs[y]
        invariant inUse == old(inUse) - Pages(hs[..x])
        decreases heads.Length - x
      {
        PagesStep(hs, x);
        FreeChain(heads[x]);
        heads[x] := [];
        x := x + 1;
      }
      assert hs[..x] == hs;
      assert heads[..] == seq(heads.Length, _ => []);
      assert Pages(heads[..]) == {};
    }

    /** Free the page of every chunk of the chain h. */
    method FreeChain(h: seq<Chunk<T>>)
      modifies this
      ensures heads == old(heads) && nextPage == old(nextPage)
      ensures inUse == old(inUse) - ChainPages(h)
    {
      var i := 0;
      while i < |h|
        invariant 0 <= i <= |h| && heads == old(heads) && nextPage == old(nextPage)
        invariant inUse == old(inUse) - ChainPages(h[..i])
        decreases |h| - i
      {
        ChainPagesStep(h, i);
        inUse := inUse - {h[i].page};
        i := i + 1;
      }
      assert h[..i] == h;
    }

    /** begin: an iterator for thread 0. */
    method Begin() returns (it: BagIterator<T>)
      requires Valid()
      ensures fresh(it) && it.hd == this && it.PosOf() == Canon(heads[..], 0)
    {
      it := new BagIterator(this, 0);
    }

    /** end: an iterator past the last thread. */
    method End() returns (it: BagIterator<T>)
      requires Valid()
      ensures fresh(it) && it.hd == this && it.PosOf() == EndPos(heads[..])
    {
      it := new BagIterator(this, heads.Length);
    }

    /** local_begin: an iterator for the calling thread tid. */
    method LocalBegin(tid: nat) returns (it: BagIterator<T>)
      requires Valid() && tid < heads.Length
      ensures fresh(it) && it.hd == this && it.PosOf() == Canon(heads[..], tid)
    {
      it := new BagIterator(this, tid);
    }

    /** local_end: an iterator for the thread after tid. */
    method LocalEnd(tid: nat) returns (it: BagIterator<T>)
      requires Valid() && tid < heads.Length
      ensures fresh(it) && it.hd == this && it.PosOf() == Canon(heads[..], tid + 1)
    {
      it := new BagIterator(this, tid + 1);
    }

    /** Walking from begin() to end() visits every element of the bag once,
        thread by thread, each chain from its newest chunk. */
    method Traverse() returns (out: seq<T>)
      requires Valid()
      ensures out == Contents(heads[..])
    {
      ghost var hs := heads[..];
      var e := End();
      var it := Begin();
      CanonRank(layout, hs, 0);
      out := [];
      ghost var k := 0;
      while !it.Equals(e)
        invariant it != e && it.hd == this && e.hd == this && e.PosOf() == EndPos(hs) && heads[..] == hs
        invariant IsData(hs, it.PosOf()) || it.PosOf() == EndPos(hs)
        invariant k == Rank(hs, it.PosOf()) <= |Contents(hs)|
        invariant out == Contents(hs)[..k]
        decreases |Contents(hs)| - k
      {
        GlobalStep(layout, hs, it.PosOf());
        out := out + [it.Get()];
        it.Advance();
        k := Rank(hs, it.PosOf());
      }
    }

    /** Walking from local_begin() to local_end() of thread tid visits
        exactly the elements tid pushed, newest chunk first. */
    method TraverseLocal(tid: nat) returns (out: seq<T>)
      requires Valid() && tid < heads.Length
      ensures out == ChainItems(heads[tid])
    {
      var e := LocalEnd(tid);
      var it := LocalBegin(tid);
      out := WalkThread(layout, heads[..], tid, it, e);
    }
  }

  /** The loop of a walk over thread tid's elements: from where it stands,
      advance it until it equals e, collecting what it points at. */
  method WalkThread<T>(l: Layout, ghost hs: seq<seq<Chunk<T>>>, tid: nat, it: BagIterator<T>, e: BagIterator<T>)
    returns (out: seq<T>)
    requires l.Valid() && ChainsOk(l, hs) && tid < |hs| == it.hd.heads.Length && it.hd.heads[..] == hs
    requires it != e && e.hd == it.hd && e.PosOf() == Canon(hs, tid + 1) && it.PosOf() == Canon(hs, tid)
    modifies it
    ensures out == ChainItems(hs[tid])
  {
    CanonRank(l, hs, tid);
    CanonRank(l, hs, tid + 1);
    ghost var base := |AllItems(hs, tid)|;
    ghost var top := |AllItems(hs, tid + 1)|;
    ghost var mine := ChainItems(hs[tid]);
    assert top == base + |mine|;
    ghost var k := base;
    ghost var bag := it.hd;
    out := [];
    while !it.Equals(e)
      invariant it.hd == bag && e.hd == bag && bag.heads[..] == hs && e.PosOf() == Canon(hs, tid + 1)
      invariant (IsData(hs, it.PosOf()) && it.thr == tid) || it.PosOf() == Canon(hs, tid + 1)
      invariant IsData(hs, it.PosOf()) || it.PosOf() == EndPos(hs)
      invariant k == Rank(hs, it.PosOf()) && base <= k <= top
      invariant out == mine[..k - base]
      decreases top - k
    {
      ghost var q := it.PosOf();
      LocalStep(l, hs, tid, q);
      var x := Take(hs, it);
      out := out + [x];
      k := Rank(hs, Step(hs, q));
    }
  }

  /** One step of a walk: dereference the iterator, then advance it. */
  method Take<T>(ghost hs: seq<seq<Chunk<T>>>, it: BagIterator<T>) returns (x: T)
    requires it.hd.heads[..] == hs && IsData(hs, it.PosOf())
    modifies it
    ensures it.hd == old(it.hd) && it.PosOf() == Step(hs, old(it.PosOf()))
    ensures Rank(hs, old(it.PosOf())) < |Contents(hs)|
    ensures x == Contents(hs)[Rank(hs, old(it.PosOf()))]
  {
    x := it.Get();
    it.Advance();
  }

  /** galois_insert_bag::iterator: the bag, a thread, a chunk and a slot. */
  class BagIterator<T> {
    var hd: InsertBag<T>
    var thr: nat
    var p: Option<nat>
    var v: nat

    function PosOf(): Pos
      reads this
    {
      Pos(thr, p, v)
    }

    /** iterator(hd, thr): settle on the first element of thr or a later
        thread. */
    constructor (bag: InsertBag<T>, t: nat)
      requires t <= bag.heads.Length
      ensures hd == bag && PosOf() == Canon(bag.heads[..], t)
    {
      hd := bag;
      thr := t;
      p := None;
      v := 0;
      new;
      var ok := InitThread();
      if !ok {
        AdvanceThread();
      }
    }

    /** init_thread: the head of thread thr and its first slot, or null. */
    method InitThread() returns (ok: bool)
      modifies this
      ensures hd == old(hd) && thr == old(thr)
      ensures PosOf() == if thr < hd.heads.Length && hd.heads[thr] != []
                         then Pos(thr, Some(0), hd.heads[thr][0].dbegin) else Pos(thr, None, 0)
      ensures ok == p.Some?
    {
      p := if thr < hd.heads.Length && hd.heads[thr] != [] then Some(0) else None;
      v := if p.Some? then hd.heads[thr][0].dbegin else 0;
      ok := p.Some?;
    }

    /** advance_local: the next slot; false once it reaches dend. */
    method AdvanceLocal() returns (ok: bool)
      requires thr < hd.heads.Length && (p.Some? ==> p.value < |hd.heads[thr]|)
      modifies this
      ensures hd == old(hd) && thr == old(thr) && p == old(p)
      ensures p.Some? ==> v == old(v) + 1 && ok == (v != hd.heads[thr][p.value].DEnd())
      ensures p.None? ==> v == old(v) && !ok
    {
      if p.Some? {
        v := v + 1;
        ok := v != hd.heads[thr][p.value].DEnd();
      } else {
        ok := false;
      }
    }

    /** advance_chunk: the next chunk of the chain and its first slot, or
        null at the end of the chain. */
    method AdvanceChunk() returns (ok: bool)
      requires thr < hd.heads.Length && (p.Some? ==> p.value < |hd.heads[thr]|)
      modifies this
      ensures hd == old(hd) && thr == old(thr)
      ensures old(p).Some? && old(p).value + 1 < |hd.heads[thr]| ==>
                PosOf() == Pos(thr, Some(old(p).value + 1), hd.heads[thr][old(p).value + 1].dbegin)
      ensures old(p).Some? && old(p).value + 1 == |hd.heads[thr]| ==> PosOf() == Pos(thr, None, 0)
      ensures old(p).None? ==> PosOf() == old(PosOf())
      ensures ok == p.Some?
    {
      if p.Some? {
        p := if p.value + 1 < |hd.heads[thr]| then Some(p.value + 1) else None;
        v := if p.Some? then hd.heads[thr][p.value].dbegin else 0;
      }
      ok := p.Some?;
    }

    /** advance_thread: try the threads after thr in turn; past the last
        one the iterator is end(). */
    method AdvanceThread()
      requires thr <= hd.heads.Length
      modifies this
      ensures hd == old(hd)
      ensures old(thr) < hd.heads.Length ==> PosOf() == Canon(hd.heads[..], old(thr) + 1)
      ensures old(thr) == hd.heads.Length ==> PosOf() == old(PosOf())
    {
      ghost var hs := hd.heads[..];
      ghost var target := if thr < |hs| then Canon(hs, thr + 1) else PosOf();
      while thr < hd.heads.Length
        invariant hd == old(hd) && old(thr) <= thr <= hd.heads.Length == |hs|
        invariant thr < |hs| ==> Canon(hs, thr + 1) == target
        invariant thr == |hs| ==> PosOf() == target
        decreases hd.heads.Length - thr
      {
        thr := thr + 1;
        var ok := InitThread();
        if ok {
          return;
        }
      }
    }

    /** operator++: the next slot, else the next chunk, else the next
        thread. */
    method Advance()
      requires IsData(hd.heads[..], PosOf())
      modifies this
      ensures hd == old(hd) && PosOf() == Step(hd.heads[..], old(PosOf()))
    {
      var ok := AdvanceLocal();
      if ok {
        return;
      }
      ok := AdvanceChunk();
      if ok {
        return;
      }
      AdvanceThread();
    }

    /** operator==: same bag, thread, chunk and slot. */
    predicate Equals(other: BagIterator<T>)
      reads this, other
      ensures Equals(other) <==> hd == other.hd && PosOf() == other.PosOf()
    {
      hd == other.hd && thr == other.thr && p == other.p && v == other.v
    }

    /** operator*: the element at the iterator, the bag's element at its
        rank in traversal order. */
    function Get(): (r: T)
      requires IsData(hd.heads[..], PosOf())
      reads this, hd, hd.heads
      ensures Rank(hd.heads[..], PosOf()) < |Contents(hd.heads[..])|
      ensures r == Contents(hd.heads[..])[Rank(hd.heads[..], PosOf())]
    {
      DataRank(hd.heads[..], PosOf());
      At(hd.heads[..], PosOf())
    }
  }
}

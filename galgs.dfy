/**
 * Model of include/Galois/util/GAlgs.h: safe_advance and split_range.
 * Iterators are integer positions; a range [b, e) has b <= e.
 */
module GAlgs {

  /** Iterator categories. Forward and bidirectional iterators carry tags
      derived from the input tag, so overload resolution sends them to the
      input-iterator branch. */
  datatype Category = Input | Forward | Bidirectional | RandomAccess

  function Min(x: int, y: int): int { if x <= y then x else y }

  /** Where the input-iterator branch stops: n steps forward, but never past e.
      A negative n never reaches zero under the post-decrement test, so the
      loop only stops at e. */
  function BoundedAdvance(b: int, e: int, n: int): (r: int)
    requires b <= e
    ensures b <= r <= e
    ensures n >= 0 ==> r - b == Min(n, e - b)
    ensures n < 0 ==> r == e
  {
    if n < 0 then e else b + Min(n, e - b)
  }

  /** safe_advance_dispatch for input iterators: `while (b != e && n--) ++b;` */
  method SafeAdvanceInput(b: int, e: int, n: int) returns (r: int)
    requires b <= e
    ensures r == BoundedAdvance(b, e, n)
  {
    r := b;
    var k := n;
    while r != e && k != 0
      invariant b <= r <= e
      invariant k == n - (r - b)
      invariant n >= 0 ==> r - b <= n
      decreases e - r
    {
      k := k - 1;
      r := r + 1;
    }
  }

  /** safe_advance_dispatch for random-access iterators, as written: it takes
      the full step exactly when the range is shorter than the step, and jumps
      to e otherwise. */
  function SafeAdvanceRandomAccess(b: int, e: int, n: int): (r: int)
    ensures e - b < n ==> r == b + n && r > e
    ensures n <= e - b ==> r == e
  {
    if e - b < n then b + n else e
  }

  /** The random-access branch as its leading comment describes it: return e
      when e is closer than the advance amount, b + n otherwise. */
  function SafeAdvanceRandomAccessIntended(b: int, e: int, n: int): (r: int)
    requires b <= e && n >= 0
    ensures b <= r <= e
    ensures r == BoundedAdvance(b, e, n)
  {
    if e - b < n then e else b + n
  }

  /** The as-written branch leaves the range for a step longer than the range,
      and ignores the step for a shorter one, so it disagrees with the
      input-iterator branch on both sides. */
  lemma RandomAccessDisagreesWithInput()
    ensures SafeAdvanceRandomAccess(0, 1, 5) == 5 && BoundedAdvance(0, 1, 5) == 1
    ensures SafeAdvanceRandomAccess(0, 10, 3) == 10 && BoundedAdvance(0, 10, 3) == 3
  {
  }

  /** For a non-negative step the as-written branch agrees with the
      input-iterator branch only when the step is exactly the range's length. */
  lemma {:induction false} RandomAccessAgreesOnlyAtLength(b: int, e: int, n: int)
    requires b <= e && n >= 0
    ensures SafeAdvanceRandomAccess(b, e, n) == BoundedAdvance(b, e, n) <==> n == e - b
  {
    if n < e - b {
      assert BoundedAdvance(b, e, n) == b + n < e == SafeAdvanceRandomAccess(b, e, n);
    } else if n > e - b {
      assert BoundedAdvance(b, e, n) == e < b + n == SafeAdvanceRandomAccess(b, e, n);
    }
  }

  /** safe_advance: the branch is chosen by the iterator category alone. */
  method SafeAdvance(cat: Category, b: int, e: int, n: int) returns (r: int)
    requires b <= e
    ensures cat == RandomAccess ==> r == SafeAdvanceRandomAccess(b, e, n)
    ensures cat != RandomAccess ==> r == BoundedAdvance(b, e, n)
  {
    if cat == RandomAccess {
      r := SafeAdvanceRandomAccess(b, e, n);
    } else {
      r := SafeAdvanceInput(b, e, n);
    }
  }

  /** split_range: the midpoint of [b, e); for an odd length the first half is
      the longer one, by exactly one. */
  function SplitRange(b: int, e: int): (m: int)
    requires b <= e
    ensures b <= m <= e
    ensures 0 <= (m - b) - (e - m) <= 1
  {
    b + (e - b + 1) / 2
  }
}

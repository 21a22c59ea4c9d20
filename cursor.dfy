/** The selection cursor: an index into the candidate list that the switch
    keys move one step at a time, wrapping at both ends. The source computes
    it with the language's `%`, which truncates toward zero. */
module Cursor {

  /** The remainder of JavaScript's `%` for a positive divisor: it takes the
      sign of the dividend, unlike Dafny's Euclidean `%`. */
  function TruncatedRem(a: int, n: int): (r: int)
    requires n > 0
    ensures -n < r < n
    ensures a >= 0 ==> r >= 0
    ensures a <= 0 ==> r <= 0
    ensures -n < a < n ==> r == a
    ensures n <= a < 2 * n ==> r == a - n
  {
    if a >= 0 then
      ModFacts(a, n);
      a % n
    else
      ModFacts(-a, n);
      -((-a) % n)
  }

  /** What the remainder of a non-negative dividend is, within two laps. */
  lemma ModFacts(a: int, n: int)
    requires 0 <= a && 0 < n
    ensures 0 <= a % n < n
    ensures a < n ==> a % n == a
    ensures n <= a < 2 * n ==> a % n == a - n
  {
  }

  /** `_next`: one step forward. From the "nothing selected" sentinel -1 it
      lands on the first window; from the last window it wraps to the first. */
  function NextIndex(i: int, n: int): (r: int)
    requires n >= 1
    ensures -1 <= i ==> 0 <= r < n
    ensures -1 <= i < n - 1 ==> r == i + 1
    ensures i == n - 1 ==> r == 0
  {
    TruncatedRem(i + 1, n)
  }

  /** `_previous`: one step back; from the first window it wraps to the last. */
  function PreviousIndex(i: int, n: int): (r: int)
    requires n >= 1
    ensures 0 <= i < n ==> 0 <= r < n
    ensures 0 < i < n ==> r == i - 1
    ensures i == 0 ==> r == n - 1
  {
    TruncatedRem(i + n - 1, n)
  }

  /** A step back undoes a step forward, and a step forward undoes a step
      back, on every valid position. */
  lemma StepsAreInverse(i: int, n: int)
    requires n >= 1 && 0 <= i < n
    ensures PreviousIndex(NextIndex(i, n), n) == i
    ensures NextIndex(PreviousIndex(i, n), n) == i
  {
  }

  /** Where k steps forward from i lead. */
  function Advance(i: int, n: int, k: nat): int
    requires n >= 1
  {
    if k == 0 then i else NextIndex(Advance(i, n, k - 1), n)
  }

  /** Where k steps back from i lead. */
  function Retreat(i: int, n: int, k: nat): int
    requires n >= 1
  {
    if k == 0 then i else PreviousIndex(Retreat(i, n, k - 1), n)
  }

  /** Within one lap, k steps forward from a valid position land k places
      further on, wrapping past the end once. */
  lemma {:induction false} AdvanceWithinLap(i: int, n: int, k: nat)
    requires n >= 1 && 0 <= i < n && k <= n
    ensures Advance(i, n, k) == if i + k < n then i + k else i + k - n
  {
    if k > 0 {
      AdvanceWithinLap(i, n, k - 1);
    }
  }

  /** Within one lap, k steps back from a valid position land k places
      earlier, wrapping past the start once. */
  lemma {:induction false} RetreatWithinLap(i: int, n: int, k: nat)
    requires n >= 1 && 0 <= i < n && k <= n
    ensures Retreat(i, n, k) == if k <= i then i - k else i - k + n
  {
    if k > 0 {
      RetreatWithinLap(i, n, k - 1);
    }
  }

  /** n steps forward, or n steps back, bring the cursor back where it
      started: the cursor runs round the list as a cycle. */
  lemma FullCycle(i: int, n: int)
    requires n >= 1 && 0 <= i < n
    ensures Advance(i, n, n) == i
    ensures Retreat(i, n, n) == i
  {
    AdvanceWithinLap(i, n, n);
    RetreatWithinLap(i, n, n);
  }
}

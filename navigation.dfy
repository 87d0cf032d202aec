/** The highlighted-row index that ArrowUp and ArrowDown compute.
    -1 means no row is highlighted. */
module Navigation {

  /** `Math.max(i - 1, 0)`. */
  function ArrowUpIndex(i: int): (r: int)
    ensures r >= 0
    ensures i >= 1 ==> r == i - 1
    ensures i <= 1 ==> r == 0
  {
    if i - 1 > 0 then i - 1 else 0
  }

  /** `Math.min(i + 1, n - 1)` for a list of `n` results. */
  function ArrowDownIndex(i: int, n: nat): (r: int)
    ensures r <= n - 1
    ensures i + 1 <= n - 1 ==> r == i + 1
    ensures i + 1 >= n - 1 ==> r == n - 1
    ensures i >= -1 ==> r >= -1
  {
    if i + 1 < n - 1 then i + 1 else n - 1
  }

  /** The index after `presses` ArrowDown presses. */
  function PressDown(presses: nat, i: int, n: nat): int {
    if presses == 0 then i else PressDown(presses - 1, ArrowDownIndex(i, n), n)
  }

  /** The index after `presses` ArrowUp presses. */
  function PressUp(presses: nat, i: int): int {
    if presses == 0 then i else PressUp(presses - 1, ArrowUpIndex(i))
  }

  /** N >= 1 presses of ArrowDown reach min(i + N, n - 1): they stop at
      the last row, with no wrap-around, and an index past the end (left by
      a shorter result list) is pulled back to the last row. */
  lemma {:induction false} PressDownClamps(presses: nat, i: int, n: nat)
    ensures PressDown(presses, i, n) ==
      if presses == 0 then i else if i + presses < n - 1 then i + presses else n - 1
  {
    if presses > 0 {
      PressDownClamps(presses - 1, ArrowDownIndex(i, n), n);
    }
  }

  /** N presses of ArrowDown from "nothing highlighted" land on
      min(N - 1, n - 1); on an empty list the index stays -1. */
  lemma PressDownFromNone(presses: nat, n: nat)
    ensures PressDown(presses, -1, n) == if presses - 1 < n - 1 then presses - 1 else n - 1
    ensures PressDown(presses, -1, n) >= -1
  {
    PressDownClamps(presses, -1, n);
  }

  /** N >= 1 presses of ArrowUp reach max(i - N, 0): once at 0 the index
      stays there. */
  lemma {:induction false} PressUpClamps(presses: nat, i: int)
    requires presses >= 1
    ensures PressUp(presses, i) == if i - presses > 0 then i - presses else 0
  {
    if presses > 1 {
      PressUpClamps(presses - 1, ArrowUpIndex(i));
    }
  }

  /** On a non-empty list both arrow keys keep an index that was in
      [-1, n - 1] inside that range; ArrowUp always leaves a row highlighted. */
  lemma ArrowKeysStayInRange(i: int, n: nat)
    requires -1 <= i <= n - 1
    ensures -1 <= ArrowDownIndex(i, n) <= n - 1
    ensures n > 0 ==> 0 <= ArrowUpIndex(i) <= n - 1
  {
  }

  /** On an empty list ArrowUp moves the index from -1 to 0, which names no
      row: the range [-1, n - 1] is not an invariant of the keys. */
  lemma ArrowUpOnEmptyLeavesRange(n: nat)
    requires n == 0
    ensures ArrowUpIndex(-1) == 0 && !(ArrowUpIndex(-1) <= n - 1)
  {
  }
}

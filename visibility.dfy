/** Which parts of the widget are rendered: the results list and the
    selection chips. */
module Visibility {
  import opened Characters
  import opened Text

  /** `MAX_SELECTED_CHARACTERS`: how many chips are shown. */
  const MaxSelectedCharacters: nat := 2

  /** `isOpen && query`: the list is rendered only while open with a
      non-empty query (a string of spaces counts as non-empty here). */
  predicate ListShown(isOpen: bool, query: string)
    ensures ListShown(isOpen, query) ==> isOpen && |query| > 0
    ensures !IsBlank(query) ==> (ListShown(isOpen, query) <==> isOpen)
  {
    assert IsBlank("");
    isOpen && query != ""
  }

  /** While the dropdown is open only for non-blank queries, the list is
      rendered exactly when the dropdown is open. A blank query leaves the
      list hidden even though a non-empty one still starts a search. */
  lemma ListShownWhenOpen(isOpen: bool, query: string)
    requires isOpen ==> !IsBlank(query)
    ensures ListShown(isOpen, query) <==> isOpen
    ensures IsBlank(query) ==> !ListShown(isOpen, query)
  {
    assert IsBlank("");
  }

  /** The chip at index `i` of `n` selected entries is not hidden. */
  predicate ChipVisible(i: int, n: int)
    ensures 0 <= i < n ==> (ChipVisible(i, n) <==> n - 1 - i < MaxSelectedCharacters)
  {
    i >= n - MaxSelectedCharacters
  }

  /** The selected entries whose chips are shown, in list order: the last
      two entries, or all of them when there are fewer. */
  function VisibleChips(s: seq<Character>): (r: seq<Character>)
    ensures |s| <= MaxSelectedCharacters ==> r == s
    ensures |s| >= MaxSelectedCharacters ==> r == s[|s| - MaxSelectedCharacters..]
  {
    VisibleFromTail(s, 0);
    VisibleFrom(s, 0)
  }

  function VisibleFrom(s: seq<Character>, k: nat): seq<Character>
    requires k <= |s|
    decreases |s| - k
  {
    if k == |s| then []
    else (if ChipVisible(k, |s|) then [s[k]] else []) + VisibleFrom(s, k + 1)
  }

  lemma {:induction false} VisibleFromTail(s: seq<Character>, k: nat)
    requires k <= |s|
    ensures VisibleFrom(s, k) ==
      if k >= |s| - MaxSelectedCharacters then s[k..] else s[|s| - MaxSelectedCharacters..]
    decreases |s| - k
  {
    if k < |s| {
      VisibleFromTail(s, k + 1);
      if k >= |s| - MaxSelectedCharacters {
        assert s[k..] == [s[k]] + s[k + 1..];
      }
    }
  }

  /** Once two entries are selected, putting a new one in front (as a
      selection does) leaves the shown chips as they were. */
  lemma PrependKeepsChips(c: Character, s: seq<Character>)
    requires |s| >= MaxSelectedCharacters
    ensures VisibleChips([c] + s) == VisibleChips(s)
  {
    assert ([c] + s)[|s| + 1 - MaxSelectedCharacters..] == s[|s| - MaxSelectedCharacters..];
  }

  /** Selecting distinct characters c0, c1, c2, ... one after another from
      an empty selection shows the chips of c1 and c0: the two selected
      first, not the two most recent. */
  lemma FirstSelectedAreShown(cs: seq<Character>)
    requires UniqueIds(cs) && |cs| >= MaxSelectedCharacters
    ensures VisibleChips(ToggledAll([], cs)) == [cs[1], cs[0]]
  {
    ToggledAllFresh([], cs);
    var s := Reversed(cs);
    assert ToggledAll([], cs) == s;
    ReversedAt(cs, |cs| - 2);
    ReversedAt(cs, |cs| - 1);
    assert s[|s| - 2..] == [s[|s| - 2], s[|s| - 1]];
  }
}

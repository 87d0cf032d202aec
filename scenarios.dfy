/** Client code that drives the widget through typical interactions,
    checking what the method contracts alone let a caller know. */
module Scenarios {
  import opened Characters
  import opened Text
  import opened Widget

  /** Typing a query such as "Rick", receiving five results, moving down
      three rows and pressing Enter selects the third result and nothing
      else. */
  method SelectThirdResult(q: string, r0: Character, r1: Character, r2: Character, r3: Character, r4: Character)
    requires q != ""
  {
    var w := new MultiSelectAutocomplete();
    w.HandleInputChange(q);
    var results := [r0, r1, r2, r3, r4];
    w.SearchSucceeded(results);
    var past := w.HandleKeyDown(ArrowDown);
    past := w.HandleKeyDown(ArrowDown);
    past := w.HandleKeyDown(ArrowDown);
    assert w.selectedIndex == 2 && w.characters == results;
    past := w.HandleKeyDown(Enter);
    assert !past;
    var chosen := Toggled([], results[2]);
    assert w.selectedCharacters == chosen;
    assert chosen == [r2] by {
      assert !HasId([], r2.id);
    }
  }

  /** Typing "Rick" opens the dropdown and starts a search. */
  method TypingOpens() {
    var w := new MultiSelectAutocomplete();
    w.HandleInputChange("Rick");
    BlankIffAllWhitespace("Rick");
    assert !IsWhitespace("Rick"[0]);
    assert w.loading && w.isOpen && w.selectedIndex == -1 && w.error == "";
  }

  /** Pressing Enter twice on the same row selects and then unselects it. */
  method EnterTwiceUnselects(r: Character) {
    var w := new MultiSelectAutocomplete();
    w.HandleInputChange("Morty");
    w.SearchSucceeded([r]);
    var past := w.HandleKeyDown(ArrowDown);
    assert w.selectedIndex == 0;
    past := w.HandleKeyDown(Enter);
    assert w.selectedCharacters == Toggled([], [r][0]);
    past := w.HandleKeyDown(Enter);
    assert w.selectedCharacters == Toggled(Toggled([], r), [r][0]);
    ToggleTwiceRestores([], r);
    assert w.selectedCharacters == [];
  }

  /** A failing search for "zzz" clears the loading flag and shows the
      message; the results are those held before, here none. */
  method FailedSearch() {
    var w := new MultiSelectAutocomplete();
    w.HandleInputChange("zzz");
    w.SearchFailed();
    assert !w.loading && w.error == "No results found for" && w.characters == [];
  }

  /** A failed search after a successful one keeps the earlier results. */
  method FailureKeepsResults(r: Character) {
    var w := new MultiSelectAutocomplete();
    w.HandleInputChange("Mo");
    w.SearchSucceeded([r]);
    w.HandleInputChange("Mor");
    w.SearchFailed();
    assert w.characters == [r] && w.error == SearchFailedMessage;
  }

  /** A click outside both the input and the open list closes the dropdown
      and touches nothing else. */
  method ClickOutsideCloses(r: Character) {
    var w := new MultiSelectAutocomplete();
    w.HandleInputChange("Rick");
    w.SearchSucceeded([r]);
    w.HandleCheckboxChange(r);
    assert w.isOpen;
    w.HandleClickOutside(false, false);
    assert !w.isOpen && w.query == "Rick" && w.characters == [r];
    assert w.selectedCharacters == Toggled([], r);
  }

  /** A query of spaces starts a search but leaves the dropdown closed, and
      the toggle control will not open it. */
  method SpacesSearchButStayClosed() {
    var w := new MultiSelectAutocomplete();
    w.HandleInputChange("  ");
    BlankIffAllWhitespace("  ");
    assert w.loading && !w.isOpen;
    w.HandleDropdownToggle();
    assert !w.isOpen;
  }

  /** ArrowUp on an empty result list highlights index 0, which names no
      result; Enter then reports the out-of-range read and changes nothing. */
  method ArrowUpOnEmptyList() {
    var w := new MultiSelectAutocomplete();
    var past := w.HandleKeyDown(ArrowUp);
    assert w.selectedIndex == 0 && w.characters == [];
    past := w.HandleKeyDown(Enter);
    assert past && w.selectedCharacters == [];
  }

  /** While the list is shown, pressing the chevron first fires the
      document's mousedown listener: the chevron lies outside both the input
      and the list, so the dropdown closes. The click that follows toggles
      it open again, so the chevron does not close an open list. */
  method ChevronReopens(q: string, r: Character)
    requires !IsBlank(q)
  {
    var w := new MultiSelectAutocomplete();
    w.HandleInputChange(q);
    w.SearchSucceeded([r]);
    assert w.isOpen && w.query == q;
    w.HandleClickOutside(false, false);
    assert !w.isOpen;
    w.HandleDropdownToggle();
    assert w.isOpen;
  }
}

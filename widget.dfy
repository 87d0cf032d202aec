/** The `MultiSelectAutocomplete` component as an object: its seven state
    fields and one method per event that changes them. The HTTP request is
    not modelled; its two outcomes arrive as the events `SearchSucceeded`
    and `SearchFailed`. */
module Widget {
  import opened Characters
  import opened Text
  import opened Navigation
  import opened Visibility

  /** The keys `handleKeyDown` distinguishes; every other key is `Other`. */
  datatype Key = ArrowUp | ArrowDown | Enter | Backspace | Delete | Other

  /** The message shown when a search fails, followed by the query. */
  const SearchFailedMessage: string := "No results found for"

  class MultiSelectAutocomplete {
    var query: string
    var characters: seq<Character>
    var selectedCharacters: seq<Character>
    var loading: bool
    var error: string
    var selectedIndex: int
    var isOpen: bool

    /** What every event keeps: the selection holds each id at most once,
        and the highlighted index never drops below -1. */
    ghost predicate Valid()
      reads this
    {
      UniqueIds(selectedCharacters) && -1 <= selectedIndex
    }

    /** The dropdown is open only for a query with visible characters. */
    ghost predicate OpenOnlyWithText()
      reads this
    {
      isOpen ==> !IsBlank(query)
    }

    /** The component's initial state. */
    constructor ()
      ensures Valid() && OpenOnlyWithText()
      ensures query == "" && characters == [] && selectedCharacters == []
      ensures !loading && error == "" && selectedIndex == -1 && !isOpen
    {
      query := "";
      characters := [];
      selectedCharacters := [];
      loading := false;
      error := "";
      selectedIndex := -1;
      isOpen := false;
    }

    /** `handleInputChange` followed by the two effects keyed on `query`,
        which React runs only when the value actually changed. React fires
        `onChange` only for a new value, so the unchanged case is stated for
        completeness but does not arise in the program. */
    method HandleInputChange(q: string)
      requires Valid()
      modifies this
      ensures Valid()
      ensures query == q && selectedIndex == -1
      ensures selectedCharacters == old(selectedCharacters)
      ensures q != old(query) ==> (isOpen <==> !IsBlank(q)) && OpenOnlyWithText()
      ensures q != old(query) && q != "" ==>
        loading && error == "" && characters == old(characters)
      ensures q != old(query) && q == "" ==>
        characters == [] && loading == old(loading) && error == old(error)
      ensures q == old(query) ==>
        isOpen && characters == old(characters) && loading == old(loading) && error == old(error)
    {
      var changed := q != query;
      query := q;
      selectedIndex := -1;
      isOpen := true;
      if changed {
        if |q| > 0 {
          // a request for q is now outstanding
          loading := true;
          error := "";
        } else {
          characters := [];
        }
        if Trim(q) == "" {
          isOpen := false;
        }
      }
    }

    /** The outstanding request resolved with `results`. */
    method SearchSucceeded(results: seq<Character>)
      requires Valid()
      modifies this
      ensures Valid()
      ensures characters == results && !loading
      ensures query == old(query) && selectedCharacters == old(selectedCharacters)
      ensures error == old(error) && selectedIndex == old(selectedIndex) && isOpen == old(isOpen)
      ensures old(OpenOnlyWithText()) ==> OpenOnlyWithText()
    {
      characters := results;
      loading := false;
    }

    /** The outstanding request failed. The previous results stay. */
    method SearchFailed()
      requires Valid()
      modifies this
      ensures Valid()
      ensures error == SearchFailedMessage && !loading
      ensures characters == old(characters)
      ensures query == old(query) && selectedCharacters == old(selectedCharacters)
      ensures selectedIndex == old(selectedIndex) && isOpen == old(isOpen)
      ensures old(OpenOnlyWithText()) ==> OpenOnlyWithText()
    {
      error := SearchFailedMessage;
      loading := false;
    }

    /** `handleRemoveCharacter`: drop every selected entry with c's id. */
    method HandleRemoveCharacter(c: Character)
      requires Valid()
      modifies this
      ensures Valid()
      ensures selectedCharacters == WithoutId(old(selectedCharacters), c.id)
      ensures query == old(query) && characters == old(characters)
      ensures loading == old(loading) && error == old(error)
      ensures selectedIndex == old(selectedIndex) && isOpen == old(isOpen)
    {
      WithoutIdKeepsUnique(selectedCharacters, c.id);
      selectedCharacters := WithoutId(selectedCharacters, c.id);
    }

    /** `handleCheckboxChange`: unselect c when its id is selected, otherwise
        select it in front of the others. */
    method HandleCheckboxChange(c: Character)
      requires Valid()
      modifies this
      ensures Valid()
      ensures selectedCharacters == Toggled(old(selectedCharacters), c)
      ensures query == old(query) && characters == old(characters)
      ensures loading == old(loading) && error == old(error)
      ensures selectedIndex == old(selectedIndex) && isOpen == old(isOpen)
    {
      ToggledKeepsUnique(selectedCharacters, c);
      var isChecked := HasId(selectedCharacters, c.id);
      if isChecked {
        selectedCharacters := WithoutId(selectedCharacters, c.id);
      } else {
        selectedCharacters := [c] + selectedCharacters;
      }
    }

    /** `handleKeyDown`, without the scroll adjustment. Enter, Backspace and
        Delete act on the highlighted result; when the index names no result
        the handler would read past the end of `characters`, and then the
        state is left as it was and `readPastEnd` is reported. */
    method HandleKeyDown(key: Key) returns (readPastEnd: bool)
      requires Valid()
      modifies this
      ensures Valid()
      ensures query == old(query) && characters == old(characters)
      ensures loading == old(loading) && error == old(error) && isOpen == old(isOpen)
      ensures key == ArrowUp ==> selectedIndex == ArrowUpIndex(old(selectedIndex))
      ensures key == ArrowDown ==> selectedIndex == ArrowDownIndex(old(selectedIndex), |characters|)
      ensures key != ArrowUp && key != ArrowDown ==> selectedIndex == old(selectedIndex)
      ensures readPastEnd <==>
        (key == Enter || key == Backspace || key == Delete) &&
        old(selectedIndex) != -1 && old(selectedIndex) >= |characters|
      ensures key == Enter && old(selectedIndex) != -1 && !readPastEnd ==>
        selectedCharacters == Toggled(old(selectedCharacters), characters[old(selectedIndex)])
      ensures (key == Backspace || key == Delete) && old(selectedIndex) != -1 && !readPastEnd ==>
        selectedCharacters == WithoutId(old(selectedCharacters), characters[old(selectedIndex)].id)
      ensures key == ArrowUp || key == ArrowDown || key == Other ||
              old(selectedIndex) == -1 || readPastEnd ==>
        selectedCharacters == old(selectedCharacters)
      ensures old(OpenOnlyWithText()) ==> OpenOnlyWithText()
    {
      readPastEnd := false;
      match key {
        case ArrowUp =>
          selectedIndex := ArrowUpIndex(selectedIndex);
        case ArrowDown =>
          selectedIndex := ArrowDownIndex(selectedIndex, |characters|);
        case Enter =>
          if selectedIndex != -1 {
            if selectedIndex < |characters| {
              HandleCheckboxChange(characters[selectedIndex]);
            } else {
              readPastEnd := true;
            }
          }
        case Backspace | Delete =>
          if selectedIndex != -1 {
            if selectedIndex < |characters| {
              HandleRemoveCharacter(characters[selectedIndex]);
            } else {
              readPastEnd := true;
            }
          }
        case Other =>
      }
    }

    /** `handleClickOutside` for a mousedown whose target lies inside the
        input or inside the results list. The list element exists only while
        the list is rendered; otherwise nothing happens. */
    method HandleClickOutside(targetInInput: bool, targetInList: bool)
      requires Valid()
      modifies this
      ensures Valid()
      ensures ListShown(old(isOpen), query) && !targetInInput && !targetInList ==> !isOpen
      ensures !(ListShown(old(isOpen), query) && !targetInInput && !targetInList) ==>
        isOpen == old(isOpen)
      ensures query == old(query) && characters == old(characters)
      ensures selectedCharacters == old(selectedCharacters) && selectedIndex == old(selectedIndex)
      ensures loading == old(loading) && error == old(error)
      ensures old(OpenOnlyWithText()) ==> OpenOnlyWithText()
    {
      if !targetInInput && ListShown(isOpen, query) && !targetInList {
        isOpen := false;
      }
    }

    /** `handleDropdownToggle`: a closed dropdown with a blank query only
        focuses the input; otherwise the open flag flips. */
    method HandleDropdownToggle()
      requires Valid()
      modifies this
      ensures Valid()
      ensures !old(isOpen) && IsBlank(query) ==> !isOpen
      ensures old(isOpen) || !IsBlank(query) ==> isOpen == !old(isOpen)
      ensures query == old(query) && characters == old(characters)
      ensures selectedCharacters == old(selectedCharacters) && selectedIndex == old(selectedIndex)
      ensures loading == old(loading) && error == old(error)
      ensures old(OpenOnlyWithText()) ==> OpenOnlyWithText()
    {
      if !isOpen && Trim(query) == "" {
        // the input receives focus; no state changes
      } else {
        isOpen := !isOpen;
      }
    }
  }
}

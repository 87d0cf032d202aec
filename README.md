# MultiSelectAutocomplete, modelled in Dafny

This project models the `MultiSelectAutocomplete` React component of the
Rick-and-Morty character selector: a search box that looks characters up as
the user types, lists the results, lets the user select several of them with
the mouse or the keyboard, and shows the selected ones as removable chips.

Without its rendering, the component is a small event-driven state machine
over seven state fields: `query`, `characters`, `selectedCharacters`,
`loading`, `error`, `selectedIndex` and `isOpen`. The model has these parts:

- `characters.dfy` (module `Characters`): the character record (id and name)
  and the list expressions the handlers use (`some` as `HasId`, `filter` as
  `WithoutId`, the toggle as `Toggled`), with their lemmas. The lemmas cover
  id uniqueness, idempotence, order preservation and the toggle round trip.
- `text.dfy` (module `Text`): the string built-ins the component calls.
  These are ASCII `toLowerCase`, `indexOf` with its "first occurrence"
  contract, and `trim` over the ECMAScript white-space and line-terminator
  code points.
- `highlight.dfy` (module `Highlight`): `renderHighlightedName` as a
  three-way split of the name: prefix, highlighted span, suffix.
- `navigation.dfy` (module `Navigation`): the indexes computed by ArrowUp and
  ArrowDown, and what repeated presses reach.
- `visibility.dfy` (module `Visibility`): when the results list is rendered,
  and which selection chips are visible.
- `widget.dfy` (module `Widget`): the component as a class. It has the seven
  state fields and one method per event. Each method states the new value of
  every field. Every method keeps the invariant `Valid()`, which says that no
  two selected entries share an id and that `selectedIndex >= -1`. The
  dropdown invariant `OpenOnlyWithText()` ("open only for a non-blank
  query") is kept by every event except an input change that leaves the
  value as it was, which React never delivers (see below).
- `scenarios.dfy` (module `Scenarios`): client methods that drive the class
  through typical interactions. They show that the method contracts alone
  determine the outcome.

The network request is not part of the model. A new non-empty query marks a
request as outstanding (`loading`). Its two outcomes are the separate events
`SearchSucceeded(results)` and `SearchFailed()`.

Several behaviours of the code differ from what a reader might expect, and
the model follows the code:

- A failed search keeps the previous results; it does not clear them. Only
  `error` and `loading` change (lines 30-34).
- New selections are put in front of the list (line 55), but the visible
  chips are the last two entries (line 151). So the chips shown are the two
  selected first, not the two most recent (`FirstSelectedAreShown`).
- ArrowUp from -1 on an empty result list gives index 0 (line 79), which
  names no result. So `-1 <= selectedIndex < |characters|` is not an
  invariant (`ArrowUpOnEmptyLeavesRange`). A late, shorter result list can
  also leave the index past the end; the next ArrowDown pulls it back to the
  last row (`PressDownClamps`).
- A search starts when `query.length > 0` (line 21). The dropdown flag, by
  contrast, tests `query.trim()` (lines 131, 137). So a query of spaces
  starts a search but leaves the dropdown closed.
- The effects keyed on `query` (lines 20-38 and 130-134) run only when the
  value changed. React, for its part, fires `onChange` on a text input only
  when the value differs from the one it last saw, so `handleInputChange`
  never receives the current query and the program never reaches the
  unchanged-value case. `HandleInputChange` accepts any argument, so it
  still states that case: it only resets the index and opens the dropdown.
  In the program itself every event keeps `OpenOnlyWithText()`.
- `handleClickOutside` acts only when `listRef.current` is set. That is the
  case only while the list is rendered (line 173). So the method closes the
  dropdown only when the list is shown and the target is in neither the
  input nor the list.
- The chevron that toggles the dropdown lies outside both the input and the
  list (lines 118-119, 169). While the list is shown, pressing it first
  closes the dropdown through the mousedown listener, and the click that
  follows opens it again (lines 140, 169). So the chevron does not close an
  open list (`ChevronReopens`).
- Enter, Backspace and Delete read `characters[selectedIndex]` (lines 88 and
  95). When the index is past the end, the source reads `undefined`. If the
  selection is non-empty, the `some`/`filter` callback then throws. If the
  selection is empty, Backspace and Delete leave it empty, and Enter puts
  `undefined` into it, which breaks the next render. The model leaves the
  state unchanged in all these cases and returns `readPastEnd = true`.

## Model

| member | source | states |
|---|---|---|
| Characters.HasId | src/components/MultiSelectAutocomplete.tsx:51 | the scan in list order finds the id exactly when some entry carries it |
| Characters.WithoutId | src/components/MultiSelectAutocomplete.tsx:46-48 | the result has no entry with the id, holds exactly the entries of the input whose id differs, and is no longer than the input |
| Characters.WithoutAbsentId | src/components/MultiSelectAutocomplete.tsx:47 | filtering an id that does not occur returns the list unchanged |
| Characters.WithoutIdConcat | src/components/MultiSelectAutocomplete.tsx:47 | the filter distributes over concatenation, so the entries it keeps stay in their original relative order |
| Characters.WithoutIdIdempotent | src/components/MultiSelectAutocomplete.tsx:46-48 | removing the same id twice equals removing it once |
| Characters.WithoutIdShrinks | src/components/MultiSelectAutocomplete.tsx:53 | filtering an id that occurs makes the list strictly shorter |
| Characters.WithoutIdKeepsUnique | src/components/MultiSelectAutocomplete.tsx:47 | removal keeps "no two entries share an id" |
| Characters.Toggled | src/components/MultiSelectAutocomplete.tsx:50-57 | after a toggle the id is selected exactly when it was not selected before |
| Characters.ToggledCases | src/components/MultiSelectAutocomplete.tsx:50-57 | an absent character yields `[c] + old`; a present one yields the old list with every entry of that id removed, which is strictly shorter |
| Characters.ToggledKeepsUnique | src/components/MultiSelectAutocomplete.tsx:50-57 | toggling keeps "no two selected entries share an id" |
| Characters.ToggleTwiceRestores | src/components/MultiSelectAutocomplete.tsx:50-57 | toggling an unselected character twice restores the original selection |
| Characters.ToggleTwicePresent | src/components/MultiSelectAutocomplete.tsx:50-57 | toggling a selected character twice moves that record to the front and drops the other entries with its id |
| Characters.ToggledAllFresh | src/components/MultiSelectAutocomplete.tsx:55 | selecting distinct unselected characters one after another stacks them in front, the latest first |
| Text.Lower | src/components/MultiSelectAutocomplete.tsx:60 | ASCII `toLowerCase` keeps the length, leaves no upper-case letter, and changes exactly the upper-case letters, each by the ASCII case offset |
| Text.LowerIdempotent | src/components/MultiSelectAutocomplete.tsx:60 | lower-casing twice equals lower-casing once |
| Text.LowerSlice | src/components/MultiSelectAutocomplete.tsx:60 | ASCII lower-casing commutes with taking a slice |
| Text.IndexOf | src/components/MultiSelectAutocomplete.tsx:60-61 | -1 exactly when the needle does not occur; otherwise the needle occurs at the result and at no earlier index |
| Text.IndexFrom | src/components/MultiSelectAutocomplete.tsx:60 | the first occurrence at or after the start index, or -1 exactly when none exists there |
| Text.TrimStart | src/components/MultiSelectAutocomplete.tsx:131 | the result is a suffix of the input, everything dropped is whitespace, and it does not start with whitespace |
| Text.TrimEnd | src/components/MultiSelectAutocomplete.tsx:131 | the result is a prefix of the input, everything dropped is whitespace, and it does not end with whitespace |
| Text.Trim | src/components/MultiSelectAutocomplete.tsx:137 | a non-empty trimmed string neither starts nor ends with whitespace |
| Text.BlankIffAllWhitespace | src/components/MultiSelectAutocomplete.tsx:131 | `trim()` yields the empty string exactly when every character is whitespace |
| Text.IsBlank | src/components/MultiSelectAutocomplete.tsx:137 | `query.trim() === ''` holds exactly when every character is whitespace, the empty query included |
| Highlight.RenderHighlightedName | src/components/MultiSelectAutocomplete.tsx:59-73 | the name comes back unchanged exactly when the lower-cased query does not occur in the lower-cased name; otherwise prefix + highlighted + suffix is the name, the prefix length is the first case-insensitive match index, and the highlighted span has the query's length and equals it when lower-cased |
| Highlight.RenderKeepsText | src/components/MultiSelectAutocomplete.tsx:66-72 | the displayed text, markup removed, is always the name itself |
| Highlight.HighlightedIsSlice | src/components/MultiSelectAutocomplete.tsx:62-64 | on a match, the prefix length is `indexOf` of the lower-cased strings and the highlighted span is the name's own characters from there for the query's length |
| Navigation.ArrowUpIndex | src/components/MultiSelectAutocomplete.tsx:77-80 | ArrowUp gives `max(i - 1, 0)`: never below 0, one less when above 1 |
| Navigation.ArrowDownIndex | src/components/MultiSelectAutocomplete.tsx:81-84 | ArrowDown gives `min(i + 1, n - 1)`: one more when room is left, the last row `n - 1` otherwise, never below -1 from an index at least -1 |
| Navigation.PressDownClamps | src/components/MultiSelectAutocomplete.tsx:83 | N >= 1 ArrowDown presses from any index reach `min(i + N, n - 1)`, so an index past the end returns to the last row |
| Navigation.PressDownFromNone | src/components/MultiSelectAutocomplete.tsx:83 | N ArrowDown presses from -1 reach `min(N - 1, n - 1)`; on an empty list the index stays -1 |
| Navigation.PressUpClamps | src/components/MultiSelectAutocomplete.tsx:79 | N >= 1 ArrowUp presses reach `max(i - N, 0)`, so once at 0 the index stays there |
| Navigation.ArrowKeysStayInRange | src/components/MultiSelectAutocomplete.tsx:77-84 | on a non-empty list both keys keep an index in [-1, n-1] in range, and ArrowUp always highlights a row |
| Navigation.ArrowUpOnEmptyLeavesRange | src/components/MultiSelectAutocomplete.tsx:79 | on an empty list ArrowUp moves -1 to 0, which is outside [-1, n-1] |
| Visibility.ListShown | src/components/MultiSelectAutocomplete.tsx:173 | the list is rendered only while open with a non-empty query, and for a non-blank query exactly when open |
| Visibility.ListShownWhenOpen | src/components/MultiSelectAutocomplete.tsx:173 | while the dropdown opens only for non-blank queries, the list is rendered exactly when the dropdown is open, and never for a blank query |
| Visibility.ChipVisible | src/components/MultiSelectAutocomplete.tsx:151 | a chip is visible exactly when fewer than two entries follow it in the selection |
| Visibility.VisibleChips | src/components/MultiSelectAutocomplete.tsx:150-151 | the visible chips are the last two entries of the selection (all of them when there are at most two) |
| Visibility.PrependKeepsChips | src/components/MultiSelectAutocomplete.tsx:151 | once two entries are selected, putting a new one in front leaves the visible chips unchanged |
| Visibility.FirstSelectedAreShown | src/components/MultiSelectAutocomplete.tsx:151 | after selecting distinct characters c0, c1, ... from none, the chips shown are c1 and c0, the two selected first |
| Widget.MultiSelectAutocomplete.constructor | src/components/MultiSelectAutocomplete.tsx:10-16 | the initial state: empty query, results and selection, not loading, no error, index -1, closed |
| Widget.MultiSelectAutocomplete.HandleInputChange | src/components/MultiSelectAutocomplete.tsx:20-44 | sets the query and index -1; when the value changed, `isOpen` is "the query is not blank", a non-empty query sets loading and clears the error, and an empty one clears the results; the selection is untouched |
| Widget.MultiSelectAutocomplete.SearchSucceeded | src/components/MultiSelectAutocomplete.tsx:26-29 | the results become exactly the returned list and loading ends; everything else is unchanged |
| Widget.MultiSelectAutocomplete.SearchFailed | src/components/MultiSelectAutocomplete.tsx:30-34 | the error becomes "No results found for" and loading ends; the previous results stay |
| Widget.MultiSelectAutocomplete.HandleRemoveCharacter | src/components/MultiSelectAutocomplete.tsx:46-48 | the selection loses every entry with the id; the results and every other field are unchanged |
| Widget.MultiSelectAutocomplete.HandleCheckboxChange | src/components/MultiSelectAutocomplete.tsx:50-57 | the selection becomes the toggle of the old one; every other field is unchanged |
| Widget.MultiSelectAutocomplete.HandleKeyDown | src/components/MultiSelectAutocomplete.tsx:75-101 | arrow keys clamp the index and leave the selection; Enter toggles and Backspace/Delete remove the highlighted result; nothing happens at index -1; an index past the end is reported and changes nothing |
| Widget.MultiSelectAutocomplete.HandleClickOutside | src/components/MultiSelectAutocomplete.tsx:117-121 | the dropdown closes exactly when the list is rendered and the target is in neither the input nor the list; nothing else changes |
| Widget.MultiSelectAutocomplete.HandleDropdownToggle | src/components/MultiSelectAutocomplete.tsx:136-142 | a closed dropdown with a blank query stays closed; otherwise the open flag flips; nothing else changes |

## Left out

- Rendering: the JSX, icons, CSS classes, the loading and error texts as markup, and the tailwind configuration. These are presentation.
- The request in `src/services/rickAndMortyAPI.ts`. It is an HTTP call, represented by the events `SearchSucceeded` and `SearchFailed`. Its URL and payload are not modelled.
- The order in which overlapping requests resolve. Stale responses overwriting newer ones are ordinary events here: either event may arrive at any time. React's state batching and effect scheduling are not modelled either; each event applies its updates in sequence.
- The scroll adjustment after a key press (lines 103-114). It depends on element bounding rectangles and pixel arithmetic.
- Enter on a focused row fires the row's handler (lines 187-191), and the event then bubbles to the list's handler (line 177). Both calls read the same render's selection, and React keeps only the last update. With a row highlighted, the list handler's toggle of the highlighted row (which need not be the focused one) replaces the focused row's toggle. With nothing highlighted (every input change resets the index to -1, line 42), the list handler does nothing (line 87) and only the focused row is toggled. This is DOM event propagation and React batching.
- Focusing the input (line 138), registering and removing the mousedown listener (lines 123-128), and `console.log`. These are side effects with no state of their own.
- Where key presses come from. `handleKeyDown` is attached only to the rendered list (line 177). `HandleKeyDown` accepts a key in any state.
- The record fields `image` and `episode`. They are only displayed. The record type's own source file is not part of this model.
- Text.Lower: non-ASCII letters are left as they are, whereas `toLowerCase` maps them too ("É" becomes "é"), so for the name "Élan" and the query "é" the source highlights a match that the model reports as `Unmatched`. JavaScript also indexes strings by UTF-16 code units while Dafny strings are sequences of code points; for well-formed strings the prefix, span and suffix come out the same.
- Widget.MultiSelectAutocomplete.HandleKeyDown: when the highlighted index is past the end of the results, it does not model the `undefined` read (a thrown TypeError, or `undefined` entering an empty selection on Enter). It leaves the state unchanged and returns `readPastEnd`.
- The `error` field is typed `string | undefined` in the source but only ever set to strings. It is modelled as `string`.

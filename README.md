# Autocomplete and input state logic, in Dafny

This project models the state logic of two React form components in a UI
component library: the autocomplete and the text input. JSX, styling and
context plumbing are not modelled.

The model covers:

- **The autocomplete view-state reducer** (`autocompleteReduce`). Every
  action returns the same state when its target already holds.
- **The error reducer** (`errorReducer`).
- **Text normalisation** (`formatStr`) and the label match (`findMatchingItem`).
- **The wrap-around search for the next enabled row** (`findNextEnabledIndex`).
- **The controllable value cell** (`useControllableState`). Its value is a
  controlled prop when there is one and internal state otherwise, and it
  reports changes through `onChange`.
- **The autocomplete orchestrator** (`useManagedAutocomplete`), modelled as
  a class whose fields are the hook's refs and reducer states. It covers:
  - the identifier cache behind `processRawItems`;
  - selection, reset, key handling and blur;
  - repopulation on focus;
  - the effects that follow the value, async results and static filtering.
- **The list bodies** (`AutocompleteList`, `AutocompleteListVirtualize`):
  - which of loading, message and rows is shown;
  - the selection mark;
  - the identifier-to-index map;
  - arrow-key pre-selection and the registration of the arrow-key overrides;
  - the row scrolled to.
- **The empty-state message** (`AutocompleteMessages`).
- **The input's value logic** (`useManagedInput`), also a class. It covers:
  - trimming and maximum-length truncation of text;
  - the number checks written to the error map;
  - reset, the display value, focus and blur;
  - the write-back of controlled values.

JavaScript's `Map` is an ordered sequence of key/value pairs, in insertion
order (`ordered_maps.dfy`). `trim`, `toLowerCase`, `includes`, `slice`,
`%` and `replace` are written out in `js_strings.dfy`.

Callbacks the hooks invoke (`onStateChange`, `onValueChange`, the
controllable cell's `onChange`) are returned as `Some(payload)`. Dispatches
take effect at once. Each effect is a method the host calls when the
effect's dependencies change.

Where the comments and the code disagree, the model follows the code:
`handleOnSelect` says a controller selection always confirms with
`ITEM_SELECTED`, but the code clears the pending tag instead
(`use-managed-autocomplete.ts:207-212`). A controller selection therefore
never notifies, and `HandleOnSelect` states exactly that.

The one place where the model does not follow the code is the payload of
`SELECT_ITEM`; see "Left out".

## Model

| member | source | states |
|---|---|---|
| OrderedMaps.Set | lib/components/compositions/autocomplete/hooks/use-managed-autocomplete.ts:58 | `Map.set`: an existing key keeps its position, a new key is appended; the key maps to the value and every other key is unchanged; distinct keys stay distinct |
| OrderedMaps.Delete | lib/components/compositions/autocomplete/hooks/use-managed-autocomplete.ts:55 | `Map.delete`: a missing key changes nothing; otherwise one entry fewer, the key gone, every other key unchanged |
| OrderedMaps.Get | lib/components/compositions/autocomplete/utils/utils.ts:119 | `Map.get` yields a value exactly when the key is present |
| OrderedMaps.IndexOf | lib/components/compositions/autocomplete/hooks/use-managed-autocomplete.ts:48 | the position of the first entry with the key, or -1 exactly when no entry has it |
| OrderedMaps.SetAll | lib/components/compositions/autocomplete/hooks/use-managed-autocomplete.ts:63 | `new Map(entries)`: distinct keys, and no more entries than were given |
| OrderedMaps.SetAllHas | lib/components/compositions/autocomplete/hooks/use-managed-autocomplete.ts:63 | after `new Map(entries)` a key is present exactly when the start map or some entry has it |
| OrderedMaps.SetAllUntouched | lib/components/compositions/autocomplete/hooks/use-managed-autocomplete.ts:63 | a key no entry names keeps its value from the start map |
| OrderedMaps.SetAllLast | lib/components/compositions/autocomplete/hooks/use-managed-autocomplete.ts:63 | a key maps to the value of its last entry |
| JsStrings.TrimStartIsSuffix | lib/components/compositions/autocomplete/utils/utils.ts:145 | trimming the start keeps a suffix and drops only white space |
| JsStrings.TrimEndIsPrefix | lib/components/compositions/autocomplete/utils/utils.ts:145 | trimming the end keeps a prefix and drops only white space |
| JsStrings.Trim | lib/components/compositions/autocomplete/utils/utils.ts:145 | `trim()` is no longer than its input and neither starts nor ends with white space |
| JsStrings.TrimOfTrimmed | lib/components/compositions/autocomplete/utils/utils.ts:145 | a text without leading and trailing white space is its own trim |
| JsStrings.TrimIdempotent | lib/components/compositions/autocomplete/utils/utils.ts:145 | trimming twice is trimming once |
| JsStrings.ToLower | lib/components/compositions/autocomplete/utils/utils.ts:146 | `toLowerCase()` keeps the length of the text |
| JsStrings.ToLowerIdempotent | lib/components/compositions/autocomplete/utils/utils.ts:146 | lower-casing twice is lower-casing once |
| JsStrings.TrimToLower | lib/components/compositions/autocomplete/utils/utils.ts:145-146 | trimming and lower-casing commute |
| JsStrings.IncludesIffOccurs | lib/components/compositions/autocomplete/hooks/use-managed-autocomplete.ts:251 | `includes` holds exactly when the needle occurs at some position |
| JsStrings.SliceTo | lib/components/compositions/input/hooks/use-managed-input.ts:170 | `slice(0, end)` is the prefix of that length, capped at the text, with a negative end counted from the back |
| Utils.AutocompleteReduce | lib/components/compositions/autocomplete/utils/utils.ts:5-112 | an action whose target already holds returns the state unchanged; the converse is `ReduceUnchangedIff` |
| Utils.ReduceUnchangedIff | lib/components/compositions/autocomplete/utils/utils.ts:5-112 | the reducer returns the same state exactly when the action's target holds, or the selection is already cleared except for the open flag |
| Utils.ReduceSetInputValue | lib/components/compositions/autocomplete/utils/utils.ts:7-19 | a new text clears selection and pre-selection, sets the open flag as asked, clears the map on request, and keeps the last valid selection and both busy flags |
| Utils.ReduceSelectItem | lib/components/compositions/autocomplete/utils/utils.ts:21-35 | selecting a different item shows its label, selects it, pre-selects its identifier and makes it the last valid selection |
| Utils.ReduceClearSelection | lib/components/compositions/autocomplete/utils/utils.ts:37-58 | clearing empties text, selection, pre-selection, search flag, last valid selection and map, and keeps the open and loading flags |
| Utils.ReduceSingleField | lib/components/compositions/autocomplete/utils/utils.ts:60-110 | each of the other actions changes exactly its own field |
| Utils.ReduceIdempotent | lib/components/compositions/autocomplete/utils/utils.ts:5-112 | applying an action a second time changes nothing |
| Utils.ReduceKeepsItemsWellFormed | lib/components/compositions/autocomplete/utils/utils.ts:84-94 | the filtered map stays keyed by identifier |
| Utils.ReduceKeepsSelectionShown | lib/components/compositions/autocomplete/utils/utils.ts:5-112 | a current selection stays the last valid selection and matches the text, whatever the action |
| Utils.ErrorReduce | lib/components/compositions/autocomplete/utils/utils.ts:114-141 | distinct keys stay distinct |
| Utils.ErrorReduceAdd | lib/components/compositions/autocomplete/utils/utils.ts:116-124 | adding the stored message or an empty one changes nothing; otherwise the key carries the message, a new key is appended, and other keys are unchanged |
| Utils.ErrorReduceRemove | lib/components/compositions/autocomplete/utils/utils.ts:125-133 | removing a missing key changes nothing; otherwise the key is gone and other keys are unchanged |
| Utils.ErrorReduceClear | lib/components/compositions/autocomplete/utils/utils.ts:134-137 | clearing leaves no error |
| Utils.FormatStr | lib/components/compositions/autocomplete/utils/utils.ts:143-147 | a missing text is empty; the result has no outer white space, is no longer than the text, and is lower case unless case-sensitive |
| Utils.FormatStrIdempotent | lib/components/compositions/autocomplete/utils/utils.ts:143-147 | normalising twice is normalising once |
| Utils.FormatStrIgnoresCase | lib/components/compositions/autocomplete/utils/utils.ts:146 | case-insensitive normalisation does not see case |
| Utils.FirstMatch | lib/components/compositions/autocomplete/utils/utils.ts:156-158 | the position of the first item whose normalised label equals the normalised text, or -1 when none does |
| Utils.FindMatchingItem | lib/components/compositions/autocomplete/utils/utils.ts:149-159 | an empty text or map matches nothing; a match has the text's normalised label |
| Utils.FindMatchingItemIsFirst | lib/components/compositions/autocomplete/utils/utils.ts:156-158 | the match is the first matching item in map order, and no match means no item matches |
| Utils.Direction | lib/components/compositions/autocomplete/utils/utils.ts:163 | +1 exactly for `ArrowDown`, -1 otherwise |
| Utils.StepWraps | lib/components/compositions/autocomplete/utils/utils.ts:169 | one step `(i + d + len) % len` is the wrapped neighbour and lies in range |
| Utils.PosClosedForm | lib/components/compositions/autocomplete/utils/utils.ts:168-171 | after k steps the index is the start moved k rows, wrapped |
| Utils.SearchCoversAll | lib/components/compositions/autocomplete/utils/utils.ts:166-171 | within `len` tries the search visits every row |
| Utils.SearchOutcome | lib/components/compositions/autocomplete/utils/utils.ts:166-172 | when the loop ends, the search stopped where it stands, and on a disabled row only when every row is disabled |
| Utils.FindNextEnabledIndex | lib/components/compositions/autocomplete/utils/utils.ts:161-173 | the result is in range, is where the search stops (only disabled rows before it), and is enabled whenever some row is |
| Utils.ArrowUpWithoutPreSelection | lib/components/compositions/autocomplete/utils/utils.ts:161-173 | with no pre-selected row and three enabled rows, ArrowUp lands on row 1, not on the last row |
| Utils.FindNextEnabledIndexFixed | lib/components/compositions/autocomplete/utils/utils.ts:161-173 | as above from a pre-selected row; with none, ArrowDown reaches the first enabled row and ArrowUp the last one |
| Utils.DownwardSearchSkipsFirstRows | lib/components/compositions/autocomplete/utils/utils.ts:166-171 | a downward search from before the first row skipped only disabled rows |
| Utils.UpwardSearchSkipsLastRows | lib/components/compositions/autocomplete/utils/utils.ts:166-171 | an upward search from past the last row skipped only disabled rows |
| ControllableStates.Resolve | lib/components/hooks/use-controllable-state.ts:65 | an update function is applied to the current value; a plain value replaces it |
| ControllableStates.ControllableState.constructor | lib/components/hooks/use-controllable-state.ts:28-58 | the cell starts from the default, with nothing to report, and sees the value prop |
| ControllableStates.ControllableState.Value | lib/components/hooks/use-controllable-state.ts:55-56 | the controlled value when there is one, the internal state otherwise |
| ControllableStates.ControllableState.SetValue | lib/components/hooks/use-controllable-state.ts:60-75 | controlled: nothing is stored, and a resolved value that differs from the prop is reported; uncontrolled: the resolved value is stored and nothing is reported yet |
| ControllableStates.ControllableState.CommitEffect | lib/components/hooks/use-controllable-state.ts:40-45 | a stored value that differs from the last reported one is reported once and becomes the last reported one |
| ControllableStates.ControllableState.Sync | lib/components/hooks/use-controllable-state.ts:77-79 | the cell sees the new value prop |
| ControllableStates.MountReportsNothing | lib/components/hooks/use-controllable-state.ts:31-45 | mounting reports nothing |
| ControllableStates.CommitTwiceReportsOnce | lib/components/hooks/use-controllable-state.ts:40-45 | a second commit without a change reports nothing |
| ControllableStates.UncontrolledRoundTrip | lib/components/hooks/use-controllable-state.ts:40-75 | uncontrolled, setting and committing stores the resolved value, reports it when it changed, and shows it |
| ManagedAutocompletes.CacheKey | lib/components/compositions/autocomplete/hooks/use-managed-autocomplete.ts:45-47 | the cache key `label-value` is never empty |
| ManagedAutocompletes.IdentifiedPairs | lib/components/compositions/autocomplete/hooks/use-managed-autocomplete.ts:44-61 | one entry per source item |
| ManagedAutocompletes.SetAllIdentified | lib/components/compositions/autocomplete/hooks/use-managed-autocomplete.ts:63 | building a map from identified entries keeps it keyed by identifier, with every entry's key and only given entries |
| ManagedAutocompletes.IdentifiedMapProperties | lib/components/compositions/autocomplete/hooks/use-managed-autocomplete.ts:43-64 | the processed map is keyed by identifier, has every item's identifier, and holds only processed items |
| ManagedAutocompletes.SameTrimmedSameIdentifier | lib/components/compositions/autocomplete/hooks/use-managed-autocomplete.ts:45-51 | items with the same trimmed label and value get the same identifier |
| ManagedAutocompletes.FilterByLabel | lib/components/compositions/autocomplete/hooks/use-managed-autocomplete.ts:251 | the filtered list is never longer than the list; what it keeps and in which order follow below |
| ManagedAutocompletes.FilterByLabelMembers | lib/components/compositions/autocomplete/hooks/use-managed-autocomplete.ts:251 | the filter keeps exactly the items whose normalised label contains the needle |
| ManagedAutocompletes.FilterByLabelAppend | lib/components/compositions/autocomplete/hooks/use-managed-autocomplete.ts:251 | filtering distributes over concatenation, so the original order is kept |
| ManagedAutocompletes.FilterByLabelAll | lib/components/compositions/autocomplete/hooks/use-managed-autocomplete.ts:251 | when every item matches, the filter keeps the list as it is |
| ManagedAutocompletes.EmptyNeedleKeepsAll | lib/components/compositions/autocomplete/hooks/use-managed-autocomplete.ts:247-252 | an empty needle keeps every item |
| ManagedAutocompletes.StaticCandidates | lib/components/compositions/autocomplete/hooks/use-managed-autocomplete.ts:241-253 | without a custom filter, the candidates are exactly the items whose normalised label contains the normalised text |
| ManagedAutocompletes.StaticCandidatesIsFilter | lib/components/compositions/autocomplete/hooks/use-managed-autocomplete.ts:247-252 | the empty-text shortcut agrees with filtering by the empty needle |
| ManagedAutocompletes.AsyncGate | lib/components/compositions/autocomplete/hooks/use-managed-autocomplete.ts:397-425 | still loading; too short (empty, stop searching); stale or irrelevant (empty, searching kept); or accepted. Each case holds exactly under its own conditions |
| ManagedAutocompletes.AcceptedAnswersInput | lib/components/compositions/autocomplete/hooks/use-managed-autocomplete.ts:416-424 | an accepted response was searched for the current text |
| ManagedAutocompletes.BlurDecision | lib/components/compositions/autocomplete/hooks/use-managed-autocomplete.ts:331-353 | blur acts only without a command input and with a text that differs from the last valid selection; restore needs a selection, clear and a selection-less restore reset, keep never acts |
| ManagedAutocompletes.BlurRestoreSettles | lib/components/compositions/autocomplete/hooks/use-managed-autocomplete.ts:333-342 | after restoring, a second blur changes nothing |
| ManagedAutocompletes.InitialState | lib/components/compositions/autocomplete/hooks/use-managed-autocomplete.ts:112-126 | the initial state: the value as text, the processed map, closed and idle, the matching item selected, last valid and pre-selected |
| ManagedAutocompletes.ManagedAutocomplete.constructor | lib/components/compositions/autocomplete/hooks/use-managed-autocomplete.ts:34-127 | refs cleared, initial value from value or default, cell from the default, initial state from the processed items |
| ManagedAutocompletes.ManagedAutocomplete.InitializeState | lib/components/compositions/autocomplete/hooks/use-managed-autocomplete.ts:112-126 | the reducer's lazy initialiser yields the initial state for the processed items |
| ManagedAutocompletes.ManagedAutocomplete.LookupIdentifier | lib/components/compositions/autocomplete/hooks/use-managed-autocomplete.ts:48-59 | a hit keeps the cache; a miss, or a cached empty identifier, evicts the oldest key over 3000 entries and stores the hash; the identifier is the hash |
| ManagedAutocompletes.ManagedAutocomplete.ProcessRawItems | lib/components/compositions/autocomplete/hooks/use-managed-autocomplete.ts:43-64 | the result is the map of identified items, keyed by identifier, and the cache stays valid |
| ManagedAutocompletes.ManagedAutocomplete.RegisterKeydownOverride | lib/components/compositions/autocomplete/hooks/use-managed-autocomplete.ts:66-69 | the key now maps to the handler |
| ManagedAutocompletes.ManagedAutocomplete.UnregisterKeydownOverride | lib/components/compositions/autocomplete/hooks/use-managed-autocomplete.ts:70-72 | the key no longer has an override |
| ManagedAutocompletes.ManagedAutocomplete.OnChangeControllableState | lib/components/compositions/autocomplete/hooks/use-managed-autocomplete.ts:77-96 | a pending tag is reported once and consumed; no tag, no report |
| ManagedAutocompletes.ManagedAutocomplete.SetCurrentValue | lib/components/compositions/autocomplete/hooks/use-managed-autocomplete.ts:98-106 | uncontrolled, the value is stored and the tag waits; controlled, a differing value reports and consumes the tag |
| ManagedAutocompletes.ManagedAutocomplete.HandleTogglePopover | lib/components/compositions/autocomplete/hooks/use-managed-autocomplete.ts:130-133 | only the open flag changes |
| ManagedAutocompletes.ManagedAutocomplete.HandleToggleLoading | lib/components/compositions/autocomplete/hooks/use-managed-autocomplete.ts:135 | only the loading flag changes |
| ManagedAutocompletes.ManagedAutocomplete.HandleToggleSearching | lib/components/compositions/autocomplete/hooks/use-managed-autocomplete.ts:137-140 | only the searching flag changes |
| ManagedAutocompletes.ManagedAutocomplete.HandleOnPreSelected | lib/components/compositions/autocomplete/hooks/use-managed-autocomplete.ts:151-154 | only the pre-selection changes |
| ManagedAutocompletes.ManagedAutocomplete.HandleSetFilteredItems | lib/components/compositions/autocomplete/hooks/use-managed-autocomplete.ts:142-149 | the processed map is returned and becomes the filtered map, and nothing else changes |
| ManagedAutocompletes.ManagedAutocomplete.HandleReset | lib/components/compositions/autocomplete/hooks/use-managed-autocomplete.ts:156-171 | selection and errors cleared, closed unless asked not to, request forgotten, value set to empty under `RESET` |
| ManagedAutocompletes.ManagedAutocomplete.HandleOnSelect | lib/components/compositions/autocomplete/hooks/use-managed-autocomplete.ts:179-217 | `SelectOutcome` from the current state: a user re-selection resets or changes nothing; a missing identifier changes nothing; otherwise the item is selected and the value set to its label; a controller selection never notifies |
| ManagedAutocompletes.ManagedAutocomplete.ApplySelection | lib/components/compositions/autocomplete/hooks/use-managed-autocomplete.ts:204-214 | the item selected, the request set to its label, the user's pick remembered, the value set to the label |
| ManagedAutocompletes.ManagedAutocomplete.ItemOfWellFormed | lib/components/compositions/autocomplete/hooks/use-managed-autocomplete.ts:201 | the item found under an identifier carries that identifier |
| ManagedAutocompletes.ManagedAutocomplete.Processed | lib/components/compositions/autocomplete/hooks/use-managed-autocomplete.ts:142-149 | the map `handleSetFilteredItems` builds; no items give the empty map |
| ManagedAutocompletes.ManagedAutocomplete.ApplyItemsAndSelect | lib/components/compositions/autocomplete/hooks/use-managed-autocomplete.ts:219-228 | `ItemsApplied` with selection: the processed list becomes the map, then the first item matching the text is selected for the controller, with the request set to its label, the tag cleared and an uncontrolled value set to the label; with no match nothing else changes; the flag is lowered |
| ManagedAutocompletes.ManagedAutocomplete.SelectControllerMatch | lib/components/compositions/autocomplete/hooks/use-managed-autocomplete.ts:224-225 | a match is selected with the request set to its label, the tag cleared and an uncontrolled value set to the label; no match changes nothing |
| ManagedAutocompletes.ManagedAutocomplete.MatchIsEntry | lib/components/compositions/autocomplete/hooks/use-managed-autocomplete.ts:224-225 | the matching item is the map's entry under its own identifier |
| ManagedAutocompletes.ManagedAutocomplete.HandleStaticFilter | lib/components/compositions/autocomplete/hooks/use-managed-autocomplete.ts:230-259 | outside static mode nothing; a short text empties the map and nothing else; otherwise the candidates go through `applyItemsAndSelect` after a controlled update and through `handleSetFilteredItems` otherwise, each with its whole outcome |
| ManagedAutocompletes.ManagedAutocomplete.HandleChange | lib/components/compositions/autocomplete/hooks/use-managed-autocomplete.ts:261-275 | async mode searches exactly for long enough texts; the request and last user input are the text; the value is set under `INPUT_CHANGE` |
| ManagedAutocompletes.ManagedAutocomplete.HandleOpenAndRepopulate | lib/components/compositions/autocomplete/hooks/use-managed-autocomplete.ts:277-297 | a short text changes nothing; otherwise the list is refilled as `Repopulate` states, and then a selection is pre-selected with the request set to its label |
| ManagedAutocompletes.ManagedAutocomplete.PreSelectSelection | lib/components/compositions/autocomplete/hooks/use-managed-autocomplete.ts:292-296 | the selection is pre-selected and its label becomes the request |
| ManagedAutocompletes.ManagedAutocomplete.RefillSource | lib/components/compositions/autocomplete/hooks/use-managed-autocomplete.ts:285-290 | the static candidates, or the async response unless it is irrelevant to the text |
| ManagedAutocompletes.ManagedAutocomplete.Repopulate | lib/components/compositions/autocomplete/hooks/use-managed-autocomplete.ts:285-290 | static mode refills through the static filter, with the controlled selection when due; async mode sets the relevant response and nothing else |
| ManagedAutocompletes.ManagedAutocomplete.HandleOnKeyDown | lib/components/compositions/autocomplete/hooks/use-managed-autocomplete.ts:299-320 | an override takes the key and nothing else happens; other keys open the popover unless they are non-opening; Enter closes it, does nothing more with nothing pre-selected, and otherwise has `SelectOutcome` of a user selection of the pre-selected item from the closed state |
| ManagedAutocompletes.ManagedAutocomplete.HandleOnBlur | lib/components/compositions/autocomplete/hooks/use-managed-autocomplete.ts:326-356 | no change, reset, or restore of the last valid selection under `INPUT_CHANGE`, as the blur policy decides |
| ManagedAutocompletes.ManagedAutocomplete.RestoreOnBlur | lib/components/compositions/autocomplete/hooks/use-managed-autocomplete.ts:336-342 | the last valid selection is selected again and its label becomes request and value |
| ManagedAutocompletes.ManagedAutocomplete.ValueEffect | lib/components/compositions/autocomplete/hooks/use-managed-autocomplete.ts:363-384 | a value equal to the text changes nothing; a typed value opens the popover; any other value is a controlled update that becomes the request; async clears the map |
| ManagedAutocompletes.ManagedAutocomplete.ApplyItems | lib/components/compositions/autocomplete/hooks/use-managed-autocomplete.ts:402-428 | `fn(items)`: the whole outcome of `applyItemsAndSelect` when the flag was up, of `handleSetFilteredItems` otherwise |
| ManagedAutocompletes.ManagedAutocomplete.AsyncEffect | lib/components/compositions/autocomplete/hooks/use-managed-autocomplete.ts:386-434 | outside async mode nothing; otherwise the loading flag follows the prop and each gate case gives the whole new state: still loading sets searching; the others apply their list through `fn` and set the search flag as the case says |
| ManagedAutocompletes.ManagedAutocomplete.StaticEffect | lib/components/compositions/autocomplete/hooks/use-managed-autocomplete.ts:436-444 | outside static mode nothing; otherwise `handleStaticFilter` over the items and the current text, with its whole outcome |
| ManagedAutocompletes.ManagedAutocomplete.ResetEffect | lib/components/compositions/autocomplete/hooks/use-managed-autocomplete.ts:446-451 | with the flag and its setter, the flag is cleared and the hook reset as `HandleReset` states; otherwise nothing |
| ManagedAutocompletes.ManagedAutocomplete.ControllableEffect | lib/components/hooks/use-controllable-state.ts:40-45 | a committed change reports the pending tag once |
| ManagedAutocompletes.ManagedAutocomplete.Rerender | lib/components/compositions/autocomplete/hooks/use-managed-autocomplete.ts:358-361 | new props are seen by the hook and the cell |
| AutocompleteLists.Flags | lib/components/compositions/autocomplete/autocomplete-list.tsx:42-48 | loading only for long enough texts, rows only when there are items |
| AutocompleteLists.FlagsPartition | lib/components/compositions/autocomplete/autocomplete-list.tsx:42-48 | exactly one of loading, message and rows is shown |
| AutocompleteLists.ShowLoadingIff | lib/components/compositions/autocomplete/autocomplete-list.tsx:42 | loading shows exactly while busy with a long enough text |
| AutocompleteLists.ShowListIff | lib/components/compositions/autocomplete/autocomplete-list.tsx:43-48 | with items and nothing busy, rows show unless the text is started but too short |
| AutocompleteLists.Rows | lib/components/compositions/autocomplete/autocomplete-list.tsx:38-68 | one row per entry, in map order, marked exactly when it is the last valid selection |
| AutocompleteLists.AtMostOneSelected | lib/components/compositions/autocomplete/autocomplete-list.tsx:67-68 | at most one row carries the mark |
| AutocompleteLists.SomeRowSelectedIff | lib/components/compositions/autocomplete/autocomplete-list.tsx:67-68 | some row is marked exactly when the selection is listed |
| AutocompleteLists.RenderList | lib/components/compositions/autocomplete/autocomplete-list.tsx:40-90 | nothing while closed; otherwise the flags, and every row exactly while rows show |
| AutocompleteMessages.Message | lib/components/compositions/autocomplete/autocomplete-messages.tsx:15-31 | the initial, minimum-length or no-result text in its situation, and the placeholder otherwise |
| AutocompleteMessages.ShownMessage | lib/components/compositions/autocomplete/autocomplete-list.tsx:43-89 | whenever the list shows the message, it is one of the three texts |
| AutocompleteMessages.ReplaceFirstAfter | lib/components/compositions/autocomplete/autocomplete-messages.tsx:29 | `replace` substitutes the first occurrence of the marker |
| AutocompleteMessages.DefaultMinLengthMessage | lib/components/compositions/autocomplete/autocomplete-messages.tsx:18-29 | the default reads "Escriba almenos N carácteres" with the number in place |
| AutocompleteListVirtualize.ItemsIndexMap | lib/components/compositions/autocomplete/autocomplete-list-virtualize.tsx:44-48 | each identifier maps to the last position carrying it, and nothing else is mapped |
| AutocompleteListVirtualize.IndexMapOfDistinct | lib/components/compositions/autocomplete/autocomplete-list-virtualize.tsx:44-48 | with distinct identifiers, each item maps to its own position |
| AutocompleteListVirtualize.ValuesOfWellFormed | lib/components/compositions/autocomplete/autocomplete-list-virtualize.tsx:42 | the rows of an identifier-keyed map have distinct identifiers at the map's positions |
| AutocompleteListVirtualize.CurrentIndex | lib/components/compositions/autocomplete/autocomplete-list-virtualize.tsx:79 | the pre-selected row's position, or -1 exactly when nothing listed is pre-selected |
| AutocompleteListVirtualize.LookupCurrentIndex | lib/components/compositions/autocomplete/autocomplete-list-virtualize.tsx:78-79 | the index map lookup yields the current index |
| AutocompleteListVirtualize.HandleArrowNavigation | lib/components/compositions/autocomplete/autocomplete-list-virtualize.tsx:72-89 | an empty list does nothing; otherwise the row is where `findNextEnabledIndex` stops from the current row (-1 when none), enabled whenever some row is, and a different row is pre-selected with nothing else changed |
| AutocompleteListVirtualize.FindIdentifier | lib/components/compositions/autocomplete/autocomplete-list-virtualize.tsx:108 | `findIndex`: the first position with the identifier, or -1 when none |
| AutocompleteListVirtualize.SelectionScrollTarget | lib/components/compositions/autocomplete/autocomplete-list-virtualize.tsx:106-113 | a selection that is listed is scrolled to at its row; otherwise nothing |
| AutocompleteListVirtualize.ScrollTargetIsPosition | lib/components/compositions/autocomplete/autocomplete-list-virtualize.tsx:106-113 | the scrolled-to row is the selection's position in the map |
| AutocompleteListVirtualize.RenderVirtualized | lib/components/compositions/autocomplete/autocomplete-list-virtualize.tsx:50-162 | the list's flags, and the asked-for rows with their marks while rows show |
| AutocompleteListVirtualize.RegisterArrowOverrides | lib/components/compositions/autocomplete/autocomplete-list-virtualize.tsx:97-98 | both arrow keys map to the list's navigation |
| AutocompleteListVirtualize.CleanupArrowOverrides | lib/components/compositions/autocomplete/autocomplete-list-virtualize.tsx:100-103 | neither arrow key is overridden any more |
| AutocompleteListVirtualize.ArrowKeyWhileMounted | lib/components/compositions/autocomplete/autocomplete-list-virtualize.tsx:96-104 | while mounted an arrow key goes to the list and the hook changes nothing: state, errors, request, user input, tag and value are kept; after the cleanup no arrow key is overridden |
| ManagedInputs.ValidateMaxLength | lib/components/compositions/input/hooks/use-managed-input.ts:93-98 | an absent or zero maximum never truncates |
| ManagedInputs.ProcessText | lib/components/compositions/input/hooks/use-managed-input.ts:157-172 | the processed text is a prefix of the (trimmed) text |
| ManagedInputs.ProcessTextWithoutLimit | lib/components/compositions/input/hooks/use-managed-input.ts:93-172 | with no limit the text is only trimmed, if asked |
| ManagedInputs.ProcessTextTruncates | lib/components/compositions/input/hooks/use-managed-input.ts:93-172 | a text longer than a positive maximum is cut to exactly that length; a shorter one is kept |
| ManagedInputs.ProcessTextStable | lib/components/compositions/input/hooks/use-managed-input.ts:157-242 | processing typed text twice is processing it once |
| ManagedInputs.WriteBackSettles | lib/components/compositions/input/hooks/use-managed-input.ts:268-276 | the controlled write-back reaches a fixed point after two rounds |
| ManagedInputs.WriteBackTwoRounds | lib/components/compositions/input/hooks/use-managed-input.ts:268-276 | one round is not enough: "ab c" cut to three becomes "ab ", then "ab" |
| ManagedInputs.ErrorsCheckedCompose | lib/components/compositions/input/hooks/use-managed-input.ts:166-167 | checks on disjoint keys run in sequence add up |
| ManagedInputs.LimitsKeys | lib/components/compositions/input/hooks/use-managed-input.ts:111-122 | the limit checks use two distinct keys, neither of them the range key |
| ManagedInputs.ManagedInput.constructor | lib/components/compositions/input/hooks/use-managed-input.ts:205-217 | the default is processed; the cell starts from it; the initial value is what the cell shows; a number default is checked and, with an active formatter, formatted |
| ManagedInputs.ManagedInput.ValidateLimits | lib/components/compositions/input/hooks/use-managed-input.ts:100-131 | without limits both keys are removed; otherwise each limit key carries its message exactly when exceeded |
| ManagedInputs.ManagedInput.ApplyValidations | lib/components/compositions/input/hooks/use-managed-input.ts:124-130 | every failing check adds its message and every passing one removes its key; other keys are unchanged |
| ManagedInputs.ManagedInput.ApplyValidation | lib/components/compositions/input/hooks/use-managed-input.ts:125-129 | one check through the error map |
| ManagedInputs.ManagedInput.ValidateBetween | lib/components/compositions/input/hooks/use-managed-input.ts:133-155 | without a range, or in range, the range key is removed; out of range it carries its message |
| ManagedInputs.ManagedInput.FormatValue | lib/components/compositions/input/hooks/use-managed-input.ts:79-91 | only an active formatter sets the formatted value, from the value or its sanitised form |
| ManagedInputs.ManagedInput.ProcessRawValue | lib/components/compositions/input/hooks/use-managed-input.ts:157-175 | a number is sanitised, checked for range and limits, and formatted; a text is processed with no other effect |
| ManagedInputs.ManagedInput.SetCurrentValue | lib/components/compositions/input/hooks/use-managed-input.ts:177-215 | uncontrolled, the value is stored; controlled, a differing value is reported at once |
| ManagedInputs.ManagedInput.ControllableEffect | lib/components/compositions/input/hooks/use-managed-input.ts:177-203 | a committed change is reported, with completeness for numbers, only to a listener |
| ManagedInputs.ManagedInput.HandleChange | lib/components/compositions/input/hooks/use-managed-input.ts:234-242 | typed text is processed without trimming and becomes the value (a controlled cell is untouched and a differing value reported); a text keeps errors and formatted value, a number runs its checks and is formatted |
| ManagedInputs.ManagedInput.HandleReset | lib/components/compositions/input/hooks/use-managed-input.ts:244-255 | the value becomes the initial value only for an explicit true, the empty text otherwise (a controlled cell is untouched and a differing target reported); errors and formatted value are cleared |
| ManagedInputs.ManagedInput.HandleAddError | lib/components/compositions/input/hooks/use-managed-input.ts:257-262 | a non-empty message is stored under the key; an empty one changes nothing |
| ManagedInputs.ManagedInput.DisplayValue | lib/components/compositions/input/hooks/use-managed-input.ts:218 | the raw value while focused or with no formatted value, and the formatted value when unfocused with one |
| ManagedInputs.ManagedInput.HandleFocus | lib/components/compositions/input/hooks/use-managed-input.ts:229-232 | focused; a number drops its formatted value, so the raw value shows |
| ManagedInputs.ManagedInput.HandleBlur | lib/components/compositions/input/hooks/use-managed-input.ts:220-227 | unfocused; a number is formatted from its doubly sanitised value |
| ManagedInputs.ManagedInput.ControlledWriteBackEffect | lib/components/compositions/input/hooks/use-managed-input.ts:268-276 | a controlled value is re-processed and written back, and reported, only when processing changed it; a text keeps errors and formatted value, a number runs its checks and is formatted |
| ManagedInputs.ManagedInput.ResetEffect | lib/components/compositions/input/hooks/use-managed-input.ts:278-285 | with the flag and its setter, the flag is cleared and the input reset to the target `resetToInitialValue` picks, with its report; otherwise nothing |
| ManagedInputs.ManagedInput.Rerender | lib/components/compositions/input/hooks/use-managed-input.ts:264-266 | new props and helpers are seen by the hook and the cell |

## Left out

- The identifier cache evicts in insertion order. This matches the original's `Map`: a cache hit does not refresh an entry, so eviction is not least-recently-used.
- Effects do not run on their own: the host calls each effect's method when its dependencies change. React's scheduling, batching and re-rendering are not modelled.
- `djb2Hash` is a function parameter of the autocomplete; hash collisions are whatever that function yields.
- `nonOpeningKeys` is a parameter: the autocomplete types file that defines it is not part of this model.
- `equals` is structural equality on Dafny values.
- The input's number helpers are functions the input is given: `sanitize`, `isPartial`, `isMinExceeded`, `isMaxExceeded`, the range check of `isBetweenExceeded`, `isMaxLengthExceeded` and `numberFormatter(...).format`. The input utilities file is not part of this model. The lemmas about truncation assume `isMaxLengthExceeded(v, n)` means the length exceeds `n`.
- The input's `errorReducer` comes from the input utilities file, which is not part of this model. The model uses the autocomplete's error reducer in its place.
- ManagedInputs.ManagedInput.ValidateBetween: the `subscribeBetween` callback and the `beteween` object it receives are not modelled.
- ManagedInputs.ManagedInput.ControllableEffect: the numeric payload's `floatValue` (`parseFloat`) is not modelled. Floating point is out of scope.
- The callers' `data` prop is not carried in any payload.
- Timers are not modelled: the loading hook, the popover's unmount delay and the invalid-state timeout.
- The virtualiser is a parameter: the rows it asks for are given, and `scrollToIndex` is returned as a row index. Measurement, sizes and alignment are left out.
- `console.warn` when both `value` and `defaultValue` are given is not modelled.
- `toLowerCase` is modelled for ASCII and Latin-1 letters only; other scripts are left unchanged.
- Event objects are reduced to what the handlers read: the key, and whether focus moves to a command input. `preventDefault` is not modelled.
- The hook dispatches `SELECT_ITEM` with the item itself as payload (`use-managed-autocomplete.ts:204` and `:337`). The reducer reads `payload.items` and `payload.openPopover` (`utils.ts:22`). Unless an item carries an `items` field of its own, `items` is undefined there, so `items.label` throws a `TypeError`, and `isOpen` would become undefined. The types file that declares the payload is not part of this model. The model dispatches the evidently intended payload instead: the item, with `openPopover` false, the value a missing flag reads as. The thrown error is not modelled.
- Lengths are counted in Dafny characters, one per element of a `seq<char>`. JavaScript's `.length` and `slice` count UTF-16 code units, so a character outside the Basic Multilingual Plane counts twice in the original. This affects the input's `maxLength` truncation (`use-managed-input.ts:170`) and the autocomplete's `minLengthRequired` checks (`use-managed-autocomplete.ts:236`, `:281` and `:404`, and the list flags in `autocomplete-list.tsx` and `autocomplete-list-virtualize.tsx`). The model agrees with the original only for text inside the Basic Multilingual Plane.
- ManagedInputs.WriteBackSettles and ManagedInputs.ProcessTextStable need a maximum length that is absent or non-negative. A negative maximum cuts that many more characters from the end on every pass. A controlled value therefore erodes to the empty text, where the write-back finally settles (`"".slice(0, -n)` is empty), so it does not settle within two rounds and processing twice is not processing once.

## Findings

| source | as written | input that shows it | evidently intended | confidence | as-written member | corrected member |
|---|---|---|---|---|---|---|
| lib/components/compositions/autocomplete/utils/utils.ts:161-173 | with no pre-selected row (current index -1), the first upward step computes `(-1 - 1 + len) % len = len - 2`, so ArrowUp skips the last row; `AutocompleteListVirtualize.HandleArrowNavigation` models the list's navigation as written | three enabled rows, no pre-selection, ArrowUp: lands on row 1 | ArrowUp with no pre-selection reaches the last enabled row (the search starts one past the end) | not executed | Utils.ArrowUpWithoutPreSelection | Utils.FindNextEnabledIndexFixed |

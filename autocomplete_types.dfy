/**
 * The autocomplete's data: items as the caller supplies them, items with
 * their derived identifier, the reducer's view-state and its actions, and
 * the payload of the `onStateChange` notification.
 */
module AutocompleteTypes {
  import opened Wrappers
  import opened OrderedMaps

  /** A candidate supplied by the caller (`IItem`); `labelText` is its `label` (a reserved word here), and its optional render function is not modelled. */
  datatype Item = Item(labelText: string, value: string, disabled: bool)

  /** An item together with its derived identifier (`ItemsWithIdentifier`). */
  datatype IdentifiedItem = IdentifiedItem(labelText: string, value: string, disabled: bool, identifier: string)

  /** `{ ...item, identifier }` */
  function WithIdentifier(item: Item, identifier: string): IdentifiedItem {
    IdentifiedItem(item.labelText, item.value, item.disabled, identifier)
  }

  /** Identifier to item, in presentation order. */
  type ItemMap = OrderedMap<string, IdentifiedItem>

  /** Every map the hook builds is keyed by the identifier its items carry. */
  ghost predicate WellFormedItems(m: ItemMap) {
    DistinctKeys(m) && forall i :: 0 <= i < |m| ==> m[i].1.identifier == m[i].0
  }

  /** `IAutocompleteState` */
  datatype AutocompleteState = AutocompleteState(
    inputValue: string,
    selectedValue: Option<IdentifiedItem>,
    isOpen: bool,
    isLoading: bool,
    filteredItems: ItemMap,
    preSelectedValue: string,
    isSearching: bool,
    lastValidSelection: Option<IdentifiedItem>)

  /** The payload of `SELECT_ITEM` as the reducer reads it. */
  datatype SelectPayload = SelectPayload(items: IdentifiedItem, openPopover: bool)

  /** `AutocompleteAction` */
  datatype AutocompleteAction =
    | SetInputValue(value: string, openPopover: bool, clearItems: bool)
    | SelectItem(payload: SelectPayload)
    | ClearSelection
    | OpenPopover
    | ClosePopover
    | SetIsLoading(loading: bool)
    | SetFilteredItems(items: ItemMap)
    | SetPreSelectionValue(identifier: string)
    | SetIsSearching(searching: bool)

  /** The reason an `onStateChange` notification is tagged with (`Actions`). */
  datatype ChangeKind = InputChange | ItemSelected | Reset

  /** `AutocompleteStateChangePayload` without the caller's opaque `data`. */
  datatype StateChange = StateChange(kind: ChangeKind, initialValue: string, inputValue: string, selectedValue: string)
}

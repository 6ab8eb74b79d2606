/**
 * The virtualised suggestion list (`AutocompleteListVirtualize`): the same
 * flags and selection mark as the plain list, the identifier-to-position
 * index, arrow-key pre-selection, the registration of the arrow-key
 * overrides, and the row scrolled to for the selection.
 *
 * The virtualiser itself is not modelled: the rows it asks for are a
 * parameter, and a scroll request is returned as the row index.
 */
module AutocompleteListVirtualize {
  import opened Wrappers
  import opened OrderedMaps
  import opened AutocompleteTypes
  import opened Utils
  import opened AutocompleteLists
  import opened ManagedAutocompletes

  /** `m` maps each identifier of `items` to the last position that carries it, and nothing else. */
  ghost predicate IsIndexMap(items: seq<IdentifiedItem>, m: map<string, int>) {
    && (forall id :: id in m ==> 0 <= m[id] < |items| && items[m[id]].identifier == id)
    && (forall i :: 0 <= i < |items| ==> items[i].identifier in m && i <= m[items[i].identifier])
  }

  /** `itemsIndexMap`: every item sets its identifier to its position, in order, so a later duplicate wins. */
  method ItemsIndexMap(items: seq<IdentifiedItem>) returns (m: map<string, int>)
    ensures IsIndexMap(items, m)
  {
    m := map[];
    var idx := 0;
    while idx < |items|
      invariant 0 <= idx <= |items|
      invariant forall id :: id in m ==> 0 <= m[id] < idx && items[m[id]].identifier == id
      invariant forall i :: 0 <= i < idx ==> items[i].identifier in m && i <= m[items[i].identifier]
    {
      m := m[items[idx].identifier := idx];
      idx := idx + 1;
    }
  }

  /** With distinct identifiers, the index map gives each item its own position. */
  lemma IndexMapOfDistinct(items: seq<IdentifiedItem>, m: map<string, int>, i: int)
    requires IsIndexMap(items, m) && 0 <= i < |items|
    requires forall a, b :: 0 <= a < b < |items| ==> items[a].identifier != items[b].identifier
    ensures m[items[i].identifier] == i
  {
  }

  /** The rows of a map keyed by identifier carry distinct identifiers, at the map's own positions. */
  lemma ValuesOfWellFormed(items: ItemMap)
    requires WellFormedItems(items)
    ensures forall a, b :: 0 <= a < b < |Values(items)| ==> Values(items)[a].identifier != Values(items)[b].identifier
    ensures forall id :: id != "" && Has(items, id) ==> Values(items)[IndexOf(items, id)].identifier == id
  {
    forall a, b | 0 <= a < b < |Values(items)|
      ensures Values(items)[a].identifier != Values(items)[b].identifier
    {
      assert items[a].0 != items[b].0;
    }
  }

  /** The row the arrow keys start from: the pre-selected one, or -1 when there is none or it is not listed. */
  function CurrentIndex(items: ItemMap, preSelected: string): (r: int)
    ensures -1 <= r < |items|
    ensures r >= 0 ==> items[r].0 == preSelected && preSelected != ""
    ensures r == -1 ==> preSelected == "" || !Has(items, preSelected)
  {
    if preSelected != "" && Has(items, preSelected) then IndexOf(items, preSelected) else -1
  }

  /**
   * `handleArrowNavigation`: on a non-empty list, the search for the next
   * enabled row starts from the pre-selected row and goes down for
   * `ArrowDown` and up otherwise; a row other than the current one is
   * pre-selected and scrolled to, and returned. With no pre-selected row the
   * search starts from -1, so ArrowUp passes over the last row first.
   */
  method HandleArrowNavigation(ac: ManagedAutocomplete, key: string) returns (moved: Option<int>)
    requires ac.Valid()
    modifies ac`state
    ensures ac.Valid()
    ensures var items := old(ac.state.filteredItems);
      var current := CurrentIndex(items, old(ac.state.preSelectedValue));
      && (items == [] ==> moved == None)
      && (moved.None? ==> ac.state == old(ac.state))
      && (moved.Some? ==>
            && 0 <= moved.value < |items| && moved.value != current
            && ac.state == old(ac.state).(preSelectedValue := items[moved.value].1.identifier))
      && (items != [] && moved.None? ==> current >= 0)
    ensures var rows := Values(old(ac.state.filteredItems));
      var current := CurrentIndex(old(ac.state.filteredItems), old(ac.state.preSelectedValue));
      var next := moved.GetOr(current);
      rows != [] ==>
        && 0 <= next < |rows|
        && ((exists i :: 0 <= i < |rows| && !rows[i].disabled) ==> !rows[next].disabled)
        && SearchStopsAt(current, Direction(key), rows, next)
  {
    var items := Values(ac.state.filteredItems);
    if |items| == 0 {
      moved := None;
      return;
    }
    var currentIndex := LookupCurrentIndex(ac.state.filteredItems, ac.state.preSelectedValue);
    var next := FindNextEnabledIndex(currentIndex, items, key);
    if next != currentIndex {
      ac.HandleOnPreSelected(items[next].identifier);
      moved := Some(next);
    } else {
      moved := None;
    }
  }

  /** `currentIdentifier ? (itemsIndexMap.get(currentIdentifier) ?? -1) : -1`, through the index map. */
  method LookupCurrentIndex(filteredItems: ItemMap, currentIdentifier: string) returns (currentIndex: int)
    requires WellFormedItems(filteredItems)
    ensures currentIndex == CurrentIndex(filteredItems, currentIdentifier)
  {
    var items := Values(filteredItems);
    var indexMap := ItemsIndexMap(items);
    currentIndex := if currentIdentifier != "" && currentIdentifier in indexMap then indexMap[currentIdentifier] else -1;
    ValuesOfWellFormed(filteredItems);
    if currentIdentifier != "" && currentIdentifier in indexMap {
      IndexMapOfDistinct(items, indexMap, indexMap[currentIdentifier]);
      IndexOfAt(filteredItems, currentIdentifier, currentIndex);
    }
  }

  /** `items.findIndex(item => item.identifier === identifier)` */
  function FindIdentifier(items: seq<IdentifiedItem>, identifier: string): (r: int)
    ensures -1 <= r < |items|
    ensures r >= 0 ==> items[r].identifier == identifier
    ensures forall j :: 0 <= j < |items| && (r == -1 || j < r) ==> items[j].identifier != identifier
  {
    if items == [] then -1
    else if items[0].identifier == identifier then 0
    else
      var r := FindIdentifier(items[1..], identifier);
      if r == -1 then -1 else r + 1
  }

  /** The selection-scroll effect: the row to centre on, when there is a selection and it is listed. */
  function SelectionScrollTarget(items: seq<IdentifiedItem>, selectedValue: Option<IdentifiedItem>): (r: Option<int>)
    ensures r.Some? ==> selectedValue.Some? && 0 <= r.value < |items| && items[r.value].identifier == selectedValue.value.identifier
    ensures r.None? && selectedValue.Some? ==> forall j :: 0 <= j < |items| ==> items[j].identifier != selectedValue.value.identifier
  {
    if selectedValue.None? then None
    else
      var idx := FindIdentifier(items, selectedValue.value.identifier);
      if idx >= 0 then Some(idx) else None
  }

  /** In a map keyed by identifier, the row scrolled to for the selection is the map's own position of it. */
  lemma ScrollTargetIsPosition(items: ItemMap, selected: IdentifiedItem)
    requires WellFormedItems(items)
    ensures Has(items, selected.identifier) ==>
      SelectionScrollTarget(Values(items), Some(selected)) == Some(IndexOf(items, selected.identifier))
    ensures !Has(items, selected.identifier) ==> SelectionScrollTarget(Values(items), Some(selected)) == None
  {
    var r := SelectionScrollTarget(Values(items), Some(selected));
    if Has(items, selected.identifier) {
      var k := IndexOf(items, selected.identifier);
      assert Values(items)[k].identifier == selected.identifier;
      var idx := FindIdentifier(Values(items), selected.identifier);
      assert items[idx].0 == selected.identifier;
      IndexOfAt(items, selected.identifier, idx);
    }
  }

  /**
   * The virtualised list: nothing while closed; otherwise the same flags as
   * the plain list, and, while the list is shown, one row for each index
   * the virtualiser asks for.
   */
  function RenderVirtualized(s: AutocompleteState, minLengthRequired: int, window: seq<int>): (r: Option<ListView>)
    requires forall k :: 0 <= k < |window| ==> 0 <= window[k] < |s.filteredItems|
    ensures r.None? <==> !s.isOpen
    ensures r.Some? ==> r.value.flags == Flags(s, minLengthRequired)
    ensures r.Some? && !r.value.flags.showList ==> r.value.rows == []
    ensures r.Some? && r.value.flags.showList ==>
      && |r.value.rows| == |window|
      && forall k :: 0 <= k < |window| ==>
           r.value.rows[k] == Rows(s.filteredItems, s.lastValidSelection)[window[k]]
  {
    if !s.isOpen then None
    else
      var flags := Flags(s, minLengthRequired);
      var rows := Rows(s.filteredItems, s.lastValidSelection);
      Some(ListView(flags, if flags.showList then seq(|window|, k requires 0 <= k < |window| => rows[window[k]]) else []))
  }

  /** The handler the list registers for both arrow keys. */
  const ArrowNavigation := KeyHandler("handleArrowNavigation")

  /** The registration effect: both arrow keys are handed to the list's navigation. */
  method RegisterArrowOverrides(ac: ManagedAutocomplete)
    modifies ac`keyDownOverrides
    ensures ac.keyDownOverrides == old(ac.keyDownOverrides)["ArrowUp" := ArrowNavigation]["ArrowDown" := ArrowNavigation]
  {
    ac.RegisterKeydownOverride("ArrowUp", ArrowNavigation);
    ac.RegisterKeydownOverride("ArrowDown", ArrowNavigation);
  }

  /** The effect's cleanup: neither arrow key has an override any more. */
  method CleanupArrowOverrides(ac: ManagedAutocomplete)
    modifies ac`keyDownOverrides
    ensures ac.keyDownOverrides == old(ac.keyDownOverrides) - {"ArrowUp", "ArrowDown"}
  {
    ac.UnregisterKeydownOverride("ArrowUp");
    ac.UnregisterKeydownOverride("ArrowDown");
    assert old(ac.keyDownOverrides) - {"ArrowUp"} - {"ArrowDown"} == old(ac.keyDownOverrides) - {"ArrowUp", "ArrowDown"};
  }

  /**
   * While the list is mounted, an arrow key goes to the list's navigation
   * and the hook's own key handling does nothing; after the cleanup, no
   * arrow key is overridden.
   */
  method ArrowKeyWhileMounted(ac: ManagedAutocomplete, key: string) returns (outcome: KeyOutcome)
    requires ac.Valid() && (key == "ArrowUp" || key == "ArrowDown")
    modifies ac`keyDownOverrides, ac`state, ac`errors, ac`lastRequest, ac`lastUserInput, ac`actionRef, ac.cell`internal
    ensures outcome == Overridden(ArrowNavigation)
    ensures ac.state == old(ac.state) && ac.errors == old(ac.errors)
    ensures ac.lastRequest == old(ac.lastRequest) && ac.lastUserInput == old(ac.lastUserInput)
    ensures ac.actionRef == old(ac.actionRef) && ac.cell.internal == old(ac.cell.internal)
    ensures ac.keyDownOverrides == old(ac.keyDownOverrides) - {"ArrowUp", "ArrowDown"}
  {
    RegisterArrowOverrides(ac);
    outcome := ac.HandleOnKeyDown(key);
    CleanupArrowOverrides(ac);
  }
}

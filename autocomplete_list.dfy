/**
 * The suggestion list (`AutocompleteList`): which one of the loading
 * indicator, the empty-state message and the rows is shown, and the rows
 * themselves, in the order of the filtered map. The virtualised list uses
 * the same flags and the same selection mark.
 */
module AutocompleteLists {
  import opened Wrappers
  import opened OrderedMaps
  import opened AutocompleteTypes

  /** Which part of the list body is shown. */
  datatype Visibility = Visibility(showLoading: bool, showMessages: bool, showList: bool)

  /** The three situations in which the empty-state message applies. */
  predicate NeedsMessage(inputLength: int, itemCount: int, minLengthRequired: int) {
    || (inputLength == 0 && itemCount == 0)
    || (inputLength > 0 && inputLength < minLengthRequired)
    || (inputLength > 0 && inputLength >= minLengthRequired && itemCount == 0)
  }

  /** `showLoading`, `showMessages` and `showList` for the current state. */
  function Flags(s: AutocompleteState, minLengthRequired: int): (v: Visibility)
    ensures v.showLoading ==> |s.inputValue| >= minLengthRequired
    ensures v.showList ==> |s.filteredItems| > 0
  {
    var showLoading := (s.isLoading || s.isSearching) && |s.inputValue| >= minLengthRequired;
    var showMessages := !showLoading && NeedsMessage(|s.inputValue|, |s.filteredItems|, minLengthRequired);
    Visibility(showLoading, showMessages, !showLoading && !showMessages && |s.filteredItems| > 0)
  }

  /** Exactly one part of the body is shown, whatever the state. */
  lemma FlagsPartition(s: AutocompleteState, minLengthRequired: int)
    ensures var v := Flags(s, minLengthRequired);
      && (v.showLoading || v.showMessages || v.showList)
      && !(v.showLoading && v.showMessages) && !(v.showLoading && v.showList) && !(v.showMessages && v.showList)
  {
  }

  /** Loading is shown exactly while a load or a search runs for a text that is long enough. */
  lemma ShowLoadingIff(s: AutocompleteState, minLengthRequired: int)
    ensures Flags(s, minLengthRequired).showLoading <==>
      (s.isLoading || s.isSearching) && |s.inputValue| >= minLengthRequired
  {
  }

  /** With items and nothing running, the rows are shown unless the text is started but too short. */
  lemma ShowListIff(s: AutocompleteState, minLengthRequired: int)
    requires |s.filteredItems| > 0 && !s.isLoading && !s.isSearching
    ensures Flags(s, minLengthRequired).showList <==> !(0 < |s.inputValue| < minLengthRequired)
  {
  }

  /** One rendered option: the item and whether it is marked as the selection. */
  datatype Row = Row(item: IdentifiedItem, isSelected: bool)

  /** `lastValidSelection?.identifier === item.identifier` */
  predicate IsSelected(lastValidSelection: Option<IdentifiedItem>, item: IdentifiedItem) {
    lastValidSelection.Some? && lastValidSelection.value.identifier == item.identifier
  }

  /** `Array.from(filteredItems.values()).map(...)`: one row per entry, in insertion order. */
  function Rows(items: ItemMap, lastValidSelection: Option<IdentifiedItem>): (r: seq<Row>)
    ensures |r| == |items|
    ensures forall i :: 0 <= i < |r| ==> r[i].item == items[i].1
    ensures forall i :: 0 <= i < |r| ==> (r[i].isSelected <==> IsSelected(lastValidSelection, items[i].1))
  {
    if items == [] then []
    else [Row(items[0].1, IsSelected(lastValidSelection, items[0].1))] + Rows(items[1..], lastValidSelection)
  }

  /** In a map keyed by identifier, at most one row carries the selection mark. */
  lemma AtMostOneSelected(items: ItemMap, lastValidSelection: Option<IdentifiedItem>)
    requires WellFormedItems(items)
    ensures var r := Rows(items, lastValidSelection);
      forall i, j :: 0 <= i < j < |r| && r[i].isSelected ==> !r[j].isSelected
  {
    var r := Rows(items, lastValidSelection);
    forall i, j | 0 <= i < j < |r| && r[i].isSelected ensures !r[j].isSelected {
      assert items[i].0 != items[j].0;
    }
  }

  /** In a map keyed by identifier, some row is marked exactly when the selection's identifier is a key. */
  lemma SomeRowSelectedIff(items: ItemMap, lastValidSelection: Option<IdentifiedItem>)
    requires WellFormedItems(items)
    ensures var r := Rows(items, lastValidSelection);
      (exists i :: 0 <= i < |r| && r[i].isSelected) <==>
        lastValidSelection.Some? && Has(items, lastValidSelection.value.identifier)
  {
    var r := Rows(items, lastValidSelection);
    if lastValidSelection.Some? && Has(items, lastValidSelection.value.identifier) {
      var k := IndexOf(items, lastValidSelection.value.identifier);
      assert items[k].0 == lastValidSelection.value.identifier;
      assert items[k].1.identifier == items[k].0;
      assert IsSelected(lastValidSelection, items[k].1);
      assert r[k].isSelected;
    }
    if exists i :: 0 <= i < |r| && r[i].isSelected {
      var i :| 0 <= i < |r| && r[i].isSelected;
      assert IsSelected(lastValidSelection, items[i].1);
      assert items[i].1.identifier == items[i].0;
      assert items[i].0 == lastValidSelection.value.identifier;
      assert IndexOf(items, lastValidSelection.value.identifier) != -1;
    }
  }

  /** What the list renders when the popover is open. */
  datatype ListView = ListView(flags: Visibility, rows: seq<Row>)

  /** The whole list: nothing while closed; otherwise the flags, and every row while the list is shown. */
  function RenderList(s: AutocompleteState, minLengthRequired: int): (r: Option<ListView>)
    ensures r.None? <==> !s.isOpen
    ensures r.Some? ==> r.value.flags == Flags(s, minLengthRequired)
    ensures r.Some? ==> (r.value.rows != [] <==> r.value.flags.showList)
    ensures r.Some? && r.value.flags.showList ==> |r.value.rows| == |s.filteredItems|
  {
    if !s.isOpen then None
    else
      var flags := Flags(s, minLengthRequired);
      Some(ListView(flags, if flags.showList then Rows(s.filteredItems, s.lastValidSelection) else []))
  }
}

/**
 * The autocomplete's pure helpers: the view-state reducer, the error-map
 * reducer, text normalisation, first-match lookup and the cyclic search for
 * the next enabled row.
 */
module Utils {
  import opened Wrappers
  import opened OrderedMaps
  import opened JsStrings
  import opened AutocompleteTypes

  // ---------------------------------------------------------------------
  // autocompleteReduce

  /** Every field cleared except `isOpen`, which CLEAR_SELECTION does not touch. */
  predicate ClearedExceptOpen(s: AutocompleteState) {
    s.inputValue == "" && s.selectedValue == None && s.preSelectedValue == ""
    && !s.isSearching && s.lastValidSelection == None && |s.filteredItems| == 0
  }

  /**
   * The guard under which an action hands back the very state it was given
   * (the early `return state` of each case).
   */
  predicate KeepsState(s: AutocompleteState, a: AutocompleteAction) {
    match a
    case SetInputValue(value, _, _) => value == s.inputValue
    case SelectItem(p) => s.selectedValue.Some? && p.items == s.selectedValue.value
    case ClearSelection => ClearedExceptOpen(s) && !s.isOpen
    case OpenPopover => s.isOpen
    case ClosePopover => !s.isOpen
    case SetIsLoading(b) => b == s.isLoading
    case SetFilteredItems(m) => (|s.filteredItems| == 0 && |m| == 0) || m == s.filteredItems
    case SetPreSelectionValue(id) => id == s.preSelectedValue
    case SetIsSearching(b) => b == s.isSearching
  }

  /** `autocompleteReduce(state, action)`; `equals` is structural equality. */
  function AutocompleteReduce(s: AutocompleteState, a: AutocompleteAction): (r: AutocompleteState)
    ensures KeepsState(s, a) ==> r == s
  {
    if KeepsState(s, a) then s
    else
      match a
      case SetInputValue(value, openPopover, clearItems) =>
        s.(inputValue := value, selectedValue := None, isOpen := openPopover, preSelectedValue := "",
           filteredItems := if clearItems then [] else s.filteredItems)
      case SelectItem(p) =>
        s.(inputValue := p.items.labelText, selectedValue := Some(p.items), isOpen := p.openPopover,
           preSelectedValue := p.items.identifier, lastValidSelection := Some(p.items))
      case ClearSelection =>
        s.(inputValue := "", selectedValue := None, preSelectedValue := "", isSearching := false,
           lastValidSelection := None, filteredItems := [])
      case OpenPopover => s.(isOpen := true)
      case ClosePopover => s.(isOpen := false)
      case SetIsLoading(b) => s.(isLoading := b)
      case SetFilteredItems(m) => s.(filteredItems := m)
      case SetPreSelectionValue(id) => s.(preSelectedValue := id)
      case SetIsSearching(b) => s.(isSearching := b)
  }

  /**
   * An action leaves the state equal to what it was exactly when its guard
   * holds, with one exception: CLEAR_SELECTION on an open popover whose
   * other fields are already cleared builds a fresh, equal state.
   */
  lemma ReduceUnchangedIff(s: AutocompleteState, a: AutocompleteAction)
    ensures AutocompleteReduce(s, a) == s <==> KeepsState(s, a) || (a.ClearSelection? && ClearedExceptOpen(s))
  {
    if a.SelectItem? && !KeepsState(s, a) {
      assert AutocompleteReduce(s, a).selectedValue != s.selectedValue;
    }
  }

  /** SET_INPUT_VALUE with a new value. */
  lemma ReduceSetInputValue(s: AutocompleteState, value: string, openPopover: bool, clearItems: bool)
    requires value != s.inputValue
    ensures var r := AutocompleteReduce(s, SetInputValue(value, openPopover, clearItems));
      && r.inputValue == value && r.selectedValue == None && r.preSelectedValue == ""
      && r.isOpen == openPopover
      && r.filteredItems == (if clearItems then [] else s.filteredItems)
      && r.lastValidSelection == s.lastValidSelection && r.isLoading == s.isLoading
      && r.isSearching == s.isSearching
  {
  }

  /** SELECT_ITEM with an item other than the current selection. */
  lemma ReduceSelectItem(s: AutocompleteState, item: IdentifiedItem, openPopover: bool)
    requires s.selectedValue != Some(item)
    ensures var r := AutocompleteReduce(s, SelectItem(SelectPayload(item, openPopover)));
      && r.inputValue == item.labelText && r.selectedValue == Some(item)
      && r.lastValidSelection == Some(item) && r.preSelectedValue == item.identifier
      && r.isOpen == openPopover && r.filteredItems == s.filteredItems
      && r.isLoading == s.isLoading && r.isSearching == s.isSearching
  {
  }

  /** CLEAR_SELECTION empties everything but the popover and loading flags. */
  lemma ReduceClearSelection(s: AutocompleteState)
    ensures var r := AutocompleteReduce(s, ClearSelection);
      && ClearedExceptOpen(r) && r.isOpen == s.isOpen && r.isLoading == s.isLoading
  {
  }

  /** The single-field actions set their field and nothing else. */
  lemma ReduceSingleField(s: AutocompleteState, a: AutocompleteAction)
    requires !(a.SetInputValue? || a.SelectItem? || a.ClearSelection?)
    ensures var r := AutocompleteReduce(s, a);
      match a
      case OpenPopover => r == s.(isOpen := true)
      case ClosePopover => r == s.(isOpen := false)
      case SetIsLoading(b) => r == s.(isLoading := b)
      case SetIsSearching(b) => r == s.(isSearching := b)
      case SetPreSelectionValue(id) => r == s.(preSelectedValue := id)
      case SetFilteredItems(m) => r == s.(filteredItems := m)
      case _ => false
  {
  }

  /**
   * Dispatching an action twice is the same as dispatching it once, and the
   * second dispatch hands its state back (except for the CLEAR_SELECTION case
   * above, which stays equal but is rebuilt while the popover is open).
   */
  lemma ReduceIdempotent(s: AutocompleteState, a: AutocompleteAction)
    ensures var r := AutocompleteReduce(s, a);
      AutocompleteReduce(r, a) == r && (KeepsState(r, a) || (a.ClearSelection? && r.isOpen))
  {
  }

  /** The filtered map stays keyed by its items' identifiers when every payload is. */
  lemma ReduceKeepsItemsWellFormed(s: AutocompleteState, a: AutocompleteAction)
    requires WellFormedItems(s.filteredItems)
    requires a.SetFilteredItems? ==> WellFormedItems(a.items)
    ensures WellFormedItems(AutocompleteReduce(s, a).filteredItems)
  {
  }

  /**
   * A current selection is shown: it is also the last valid selection, and
   * the text normalises to its label.
   */
  predicate SelectionShown(s: AutocompleteState) {
    s.selectedValue.Some? ==>
      s.lastValidSelection == s.selectedValue && LabelMatches(s.selectedValue.value, s.inputValue, false)
  }

  /** Every action keeps a current selection shown. */
  lemma ReduceKeepsSelectionShown(s: AutocompleteState, a: AutocompleteAction)
    requires SelectionShown(s)
    ensures SelectionShown(AutocompleteReduce(s, a))
  {
  }

  // ---------------------------------------------------------------------
  // errorReducer

  /** `ErrorState`: error key to message, in insertion order. */
  type ErrorState = OrderedMap<string, string>

  datatype ErrorAction = AddError(key: string, message: string) | RemoveError(key: string) | ClearErrors

  function ErrorReduce(s: ErrorState, a: ErrorAction): (r: ErrorState)
    ensures DistinctKeys(s) ==> DistinctKeys(r)
  {
    match a
    case AddError(key, message) =>
      if Get(s, key) == Some(message) || message == "" then s else Set(s, key, message)
    case RemoveError(key) =>
      if !Has(s, key) then s else Delete(s, key)
    case ClearErrors =>
      if |s| == 0 then s else []
  }

  /** ADD_ERROR changes nothing for a repeated or empty message, and otherwise only its own key. */
  lemma ErrorReduceAdd(s: ErrorState, key: string, message: string)
    ensures var r := ErrorReduce(s, AddError(key, message));
      && (Get(s, key) == Some(message) || message == "" ==> r == s)
      && (message != "" ==> Get(r, key) == Some(message))
      && (forall k :: k != key ==> Get(r, k) == Get(s, k))
      && (Has(s, key) ==> Keys(r) == Keys(s))
      && (!Has(s, key) && message != "" ==> r == s + [(key, message)])
  {
  }

  /** REMOVE_ERROR ignores an absent key and otherwise drops only that key. */
  lemma ErrorReduceRemove(s: ErrorState, key: string)
    requires DistinctKeys(s)
    ensures var r := ErrorReduce(s, RemoveError(key));
      && (!Has(s, key) ==> r == s)
      && !Has(r, key)
      && (forall k :: k != key ==> Get(r, k) == Get(s, k))
      && (Has(s, key) ==> |r| == |s| - 1)
  {
  }

  lemma ErrorReduceClear(s: ErrorState)
    ensures ErrorReduce(s, ClearErrors) == []
  {
  }

  // ---------------------------------------------------------------------
  // formatStr and findMatchingItem

  /** `formatStr(value, caseSensitive)`; `None` stands for a value that is not a string. */
  function FormatStr(value: Option<string>, caseSensitive: bool): (r: string)
    ensures value.None? ==> r == ""
    ensures r != [] ==> !IsWhiteSpace(r[0]) && !IsWhiteSpace(r[|r| - 1])
    ensures value.Some? ==> |r| <= |value.value|
    ensures !caseSensitive ==> ToLower(r) == r
  {
    match value
    case None => ""
    case Some(s) =>
      var trimmed := Trim(s);
      if caseSensitive then trimmed
      else
        ToLowerIdempotent(trimmed);
        ToLowerKeepsEnds(trimmed);
        ToLower(trimmed)
  }

  lemma ToLowerKeepsEnds(s: string)
    requires s != [] ==> !IsWhiteSpace(s[0]) && !IsWhiteSpace(s[|s| - 1])
    ensures var r := ToLower(s); r != [] ==> !IsWhiteSpace(r[0]) && !IsWhiteSpace(r[|r| - 1])
  {
    if s != [] {
      var r := ToLower(s);
      assert r[0] == ToLowerChar(s[0]);
      assert r[|r| - 1] == ToLowerChar(s[|s| - 1]);
    }
  }

  /** The result is its own normal form: normalising twice is normalising once. */
  lemma FormatStrIdempotent(value: Option<string>, caseSensitive: bool)
    ensures FormatStr(Some(FormatStr(value, caseSensitive)), caseSensitive) == FormatStr(value, caseSensitive)
  {
    var r := FormatStr(value, caseSensitive);
    TrimOfTrimmed(r);
  }

  /** Without case sensitivity, the lower-case spelling of a text is normalised like the text. */
  lemma FormatStrIgnoresCase(s: string)
    ensures FormatStr(Some(ToLower(s)), false) == FormatStr(Some(s), false)
  {
    TrimToLower(s);
    ToLowerIdempotent(Trim(s));
  }

  /** An item whose normalised label equals the normalised text. */
  predicate LabelMatches(item: IdentifiedItem, value: string, caseSensitive: bool) {
    FormatStr(Some(item.labelText), caseSensitive) == FormatStr(Some(value), caseSensitive)
  }

  /** The normalised label of every entry, in map order. */
  function Labels(items: ItemMap, caseSensitive: bool): (r: seq<string>)
    ensures |r| == |items|
    ensures forall i :: 0 <= i < |items| ==> r[i] == FormatStr(Some(items[i].1.labelText), caseSensitive)
  {
    seq(|items|, i requires 0 <= i < |items| => FormatStr(Some(items[i].1.labelText), caseSensitive))
  }

  /** The first position at or after `start` that holds `target`, or -1. */
  function FirstIndexFrom(labels: seq<string>, target: string, start: nat): (r: int)
    requires start <= |labels|
    ensures r == -1 || start <= r < |labels|
    ensures r >= 0 ==> labels[r] == target
    ensures forall j :: start <= j < |labels| && (r == -1 || j < r) ==> labels[j] != target
    decreases |labels| - start
  {
    if start == |labels| then -1
    else if labels[start] == target then start
    else FirstIndexFrom(labels, target, start + 1)
  }

  /** `Array.prototype.find` over the map's values: the position of the first match, or -1. */
  function FirstMatch(items: ItemMap, value: string, caseSensitive: bool): (r: int)
    ensures -1 <= r < |items|
    ensures r >= 0 ==> LabelMatches(items[r].1, value, caseSensitive)
    ensures forall j :: 0 <= j < |items| && (r == -1 || j < r) ==> !LabelMatches(items[j].1, value, caseSensitive)
  {
    FirstIndexFrom(Labels(items, caseSensitive), FormatStr(Some(value), caseSensitive), 0)
  }

  /**
   * `findMatchingItem(value, items, caseSensitive)`: nothing for an empty
   * text or an empty map, otherwise the first item in insertion order whose
   * normalised label equals the normalised text.
   */
  function FindMatchingItem(value: string, items: ItemMap, caseSensitive: bool): (r: Option<IdentifiedItem>)
    ensures value == "" || |items| == 0 ==> r == None
    ensures r.Some? ==> LabelMatches(r.value, value, caseSensitive)
  {
    if value == "" || |items| == 0 then None
    else
      var i := FirstMatch(items, value, caseSensitive);
      if i == -1 then None else Some(items[i].1)
  }

  /** The item found is the first matching one, and nothing is found only when no item matches. */
  lemma FindMatchingItemIsFirst(value: string, items: ItemMap, caseSensitive: bool)
    ensures var r := FindMatchingItem(value, items, caseSensitive);
      && (r.Some? ==>
            exists i :: 0 <= i < |items| && items[i].1 == r.value
              && (forall j :: 0 <= j < i ==> !LabelMatches(items[j].1, value, caseSensitive)))
      && (r.None? && value != "" ==> forall j :: 0 <= j < |items| ==> !LabelMatches(items[j].1, value, caseSensitive))
  {
    if value != "" && |items| != 0 {
      var i := FirstMatch(items, value, caseSensitive);
      if i != -1 {
        assert items[i].1 == FindMatchingItem(value, items, caseSensitive).value;
      }
    }
  }

  // ---------------------------------------------------------------------
  // findNextEnabledIndex

  /** `direction === 'ArrowDown' ? 1 : -1` */
  function Direction(direction: string): (d: int)
    ensures d == 1 <==> direction == "ArrowDown"
    ensures d == 1 || d == -1
  {
    if direction == "ArrowDown" then 1 else -1
  }

  /** One step of the search: `(nextIndex + directionValue + len) % len` with JavaScript's `%`. */
  function Step(index: int, d: int, len: int): int
    requires len > 0
  {
    Rem(index + d + len, len)
  }

  /** Where the search stands after `k` steps from `start`. */
  function Pos(start: int, d: int, len: int, k: nat): int
    requires len > 0
  {
    if k == 0 then start else Step(Pos(start, d, len, k - 1), d, len)
  }

  lemma {:induction false} MulAtLeast(k: int, len: int)
    requires k >= 1 && len > 0
    ensures k * len >= len
    decreases k
  {
    if k > 1 {
      MulAtLeast(k - 1, len);
      assert k * len == (k - 1) * len + len;
    }
  }

  lemma ModUnique(x: int, len: int, q: int)
    requires len > 0 && 0 <= x - q * len < len
    ensures x % len == x - q * len
  {
    var d := x / len;
    assert x == d * len + x % len;
    if d < q {
      MulAtLeast(q - d, len);
    } else if d > q {
      MulAtLeast(d - q, len);
    }
  }

  /** The position after `k` steps, written without remainders. */
  function Wrap(x: int, len: int): int {
    if x < -len then x + 2 * len
    else if x < 0 then x + len
    else if x < len then x
    else if x < 2 * len then x - len
    else x - 2 * len
  }

  /** One step from a position in `-1..len` is the wrapped neighbour. */
  lemma StepWraps(p: int, d: int, len: int)
    requires len > 0 && (d == 1 || d == -1) && -1 <= p <= len
    ensures Step(p, d, len) == Wrap(p + d, len)
    ensures 0 <= Step(p, d, len) < len
  {
    var x := p + d + len;
    if x < 0 {
      assert len == 1 && p == -1 && d == -1;
      ModUnique(1, 1, 1);
    } else if x < len {
      ModUnique(x, len, 0);
    } else if x < 2 * len {
      ModUnique(x, len, 1);
    } else if x < 3 * len {
      ModUnique(x, len, 2);
    } else {
      ModUnique(x, len, 3);
    }
  }

  lemma {:induction false} PosClosedForm(start: int, d: int, len: int, k: nat)
    requires len > 0 && (d == 1 || d == -1) && -1 <= start <= len && 1 <= k <= len
    ensures Pos(start, d, len, k) == Wrap(start + d * k, len)
    ensures 0 <= Pos(start, d, len, k) < len
    decreases k
  {
    if k == 1 {
      StepWraps(start, d, len);
    } else {
      PosClosedForm(start, d, len, k - 1);
      var p := Pos(start, d, len, k - 1);
      StepWraps(p, d, len);
      assert start + d * k == start + d * (k - 1) + d;
    }
  }

  /** How many steps the search needs from `start` to reach the index `i`. */
  function StepsTo(start: int, d: int, len: int, i: int): nat
    requires len > 0 && (d == 1 || d == -1) && -1 <= start <= len && 0 <= i < len
  {
    if d == 1 then
      (if i > start then i - start else i - start + len)
    else if i < start then start - i
    else if start - i + len >= 1 then start - i + len
    else len
  }

  /** Within `len` steps the search passes every index, whichever way it goes. */
  lemma SearchCoversAll(start: int, d: int, len: int, i: int)
    requires len > 0 && (d == 1 || d == -1) && -1 <= start <= len && 0 <= i < len
    requires d == 1 ==> start < len
    ensures 1 <= StepsTo(start, d, len, i) <= len
    ensures Pos(start, d, len, StepsTo(start, d, len, i)) == i
  {
    PosClosedForm(start, d, len, StepsTo(start, d, len, i));
  }

  /**
   * What the do-while loop computes: after `t` steps (at least one, at most
   * `len`) it stops at the first enabled row, or at the last row it tried.
   */
  ghost predicate SearchStopsAt(start: int, d: int, items: seq<IdentifiedItem>, r: int)
    requires |items| > 0
  {
    exists t :: 1 <= t <= |items| && r == Pos(start, d, |items|, t)
      && (forall j :: 1 <= j < t ==> 0 <= Pos(start, d, |items|, j) < |items| && items[Pos(start, d, |items|, j)].disabled)
      && (t < |items| ==> 0 <= r < |items| && !items[r].disabled)
  }

  /**
   * `findNextEnabledIndex(currentIndex, items, direction)`: a bounded cyclic
   * search, one row at a time in the arrow's direction, that skips disabled
   * rows. The search gives up after `len` tries, so it always ends; it ends
   * on an enabled row whenever there is one.
   */
  method FindNextEnabledIndex(currentIndex: int, items: seq<IdentifiedItem>, direction: string) returns (nextIndex: int)
    requires |items| >= 1 && -1 <= currentIndex <= |items|
    requires direction == "ArrowDown" ==> currentIndex < |items|
    ensures 0 <= nextIndex < |items|
    ensures SearchStopsAt(currentIndex, Direction(direction), items, nextIndex)
    ensures (exists i :: 0 <= i < |items| && !items[i].disabled) ==> !items[nextIndex].disabled
  {
    var len := |items|;
    var d := Direction(direction);
    nextIndex := currentIndex;
    var tries := 0;
    nextIndex := Step(nextIndex, d, len);
    tries := tries + 1;
    PosInRange(currentIndex, d, len, 1);
    while items[nextIndex].disabled && tries < len
      invariant 1 <= tries <= len
      invariant nextIndex == Pos(currentIndex, d, len, tries)
      invariant 0 <= nextIndex < len
      invariant forall j :: 1 <= j < tries ==> 0 <= Pos(currentIndex, d, len, j) < len && items[Pos(currentIndex, d, len, j)].disabled
      decreases len - tries
    {
      nextIndex := Step(nextIndex, d, len);
      tries := tries + 1;
      PosInRange(currentIndex, d, len, tries);
    }
    SearchOutcome(currentIndex, d, items, tries, nextIndex);
  }

  /** Where the search stands after `k` steps is a row. */
  lemma PosInRange(start: int, d: int, len: int, k: nat)
    requires len > 0 && (d == 1 || d == -1) && -1 <= start <= len && 1 <= k <= len
    ensures 0 <= Pos(start, d, len, k) < len
  {
    PosClosedForm(start, d, len, k);
  }

  /**
   * When the loop ends after `tries` steps, the search stopped where it
   * stands, and it stands on a disabled row only when every row is.
   */
  lemma SearchOutcome(start: int, d: int, items: seq<IdentifiedItem>, tries: int, r: int)
    requires |items| > 0 && (d == 1 || d == -1) && -1 <= start <= |items| && (d == 1 ==> start < |items|)
    requires 1 <= tries <= |items| && r == Pos(start, d, |items|, tries) && 0 <= r < |items|
    requires forall j :: 1 <= j < tries ==> 0 <= Pos(start, d, |items|, j) < |items| && items[Pos(start, d, |items|, j)].disabled
    requires !items[r].disabled || tries == |items|
    ensures SearchStopsAt(start, d, items, r)
    ensures (exists i :: 0 <= i < |items| && !items[i].disabled) ==> !items[r].disabled
  {
    if items[r].disabled {
      forall i | 0 <= i < |items| ensures items[i].disabled {
        SearchCoversAll(start, d, |items|, i);
      }
    }
  }

  /**
   * With no row pre-selected (-1) and three enabled rows, ArrowUp lands on
   * row 1, the second-to-last row, rather than on the last one: the first
   * step goes from -1 to -2, wrapped to `len - 2`.
   */
  method ArrowUpWithoutPreSelection() returns (r: int)
    ensures r == 1
  {
    var items := [IdentifiedItem("a", "a", false, "a"), IdentifiedItem("b", "b", false, "b"),
                  IdentifiedItem("c", "c", false, "c")];
    assert Direction("ArrowUp") == -1 by {
      assert "ArrowUp" != "ArrowDown" by { assert "ArrowUp"[5] != "ArrowDown"[5]; }
    }
    assert Pos(-1, -1, 3, 1) == 1 by {
      ModUnique(1, 3, 0);
    }
    r := FindNextEnabledIndex(-1, items, "ArrowUp");
    ghost var t :| 1 <= t <= 3 && r == Pos(-1, -1, 3, t)
      && (forall j :: 1 <= j < t ==> 0 <= Pos(-1, -1, 3, j) < 3 && items[Pos(-1, -1, 3, j)].disabled);
  }

  /**
   * The search as evidently intended: with no row pre-selected, ArrowDown
   * reaches the first enabled row and ArrowUp the last one (the upward
   * search starts one past the last row). From a pre-selected row it is the
   * search above.
   */
  method FindNextEnabledIndexFixed(currentIndex: int, items: seq<IdentifiedItem>, direction: string) returns (nextIndex: int)
    requires |items| >= 1 && -1 <= currentIndex < |items|
    ensures 0 <= nextIndex < |items|
    ensures (exists i :: 0 <= i < |items| && !items[i].disabled) ==> !items[nextIndex].disabled
    ensures currentIndex >= 0 ==> SearchStopsAt(currentIndex, Direction(direction), items, nextIndex)
    ensures currentIndex == -1 && direction == "ArrowDown" ==> forall j :: 0 <= j < nextIndex ==> items[j].disabled
    ensures currentIndex == -1 && direction != "ArrowDown" ==> forall j :: nextIndex < j < |items| ==> items[j].disabled
  {
    var len := |items|;
    var d := Direction(direction);
    var start := if currentIndex == -1 && d == -1 then len else currentIndex;
    nextIndex := FindNextEnabledIndex(start, items, direction);
    if currentIndex == -1 && d == 1 {
      DownwardSearchSkipsFirstRows(items, nextIndex);
    } else if currentIndex == -1 {
      UpwardSearchSkipsLastRows(items, nextIndex);
    }
  }

  /** A downward search from before the first row skipped only disabled rows. */
  lemma DownwardSearchSkipsFirstRows(items: seq<IdentifiedItem>, r: int)
    requires |items| > 0 && SearchStopsAt(-1, 1, items, r)
    ensures forall j :: 0 <= j < r ==> items[j].disabled
  {
    var len := |items|;
    var t :| 1 <= t <= len && r == Pos(-1, 1, len, t)
      && (forall j :: 1 <= j < t ==> 0 <= Pos(-1, 1, len, j) < len && items[Pos(-1, 1, len, j)].disabled);
    PosClosedForm(-1, 1, len, t);
    forall j | 0 <= j < r ensures items[j].disabled {
      PosClosedForm(-1, 1, len, j + 1);
    }
  }

  /** An upward search from past the last row skipped only disabled rows. */
  lemma UpwardSearchSkipsLastRows(items: seq<IdentifiedItem>, r: int)
    requires |items| > 0 && 0 <= r < |items| && SearchStopsAt(|items|, -1, items, r)
    ensures forall j :: r < j < |items| ==> items[j].disabled
  {
    var len := |items|;
    var t :| 1 <= t <= len && r == Pos(len, -1, len, t)
      && (forall j :: 1 <= j < t ==> 0 <= Pos(len, -1, len, j) < len && items[Pos(len, -1, len, j)].disabled);
    PosClosedForm(len, -1, len, t);
    forall j | r < j < len ensures items[j].disabled {
      PosClosedForm(len, -1, len, len - j);
    }
  }
}

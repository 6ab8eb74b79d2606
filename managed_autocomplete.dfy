/**
 * The autocomplete orchestrator (`useManagedAutocomplete`): a class whose
 * fields are the hook's refs and reducer states, and whose methods are its
 * handlers and effects.
 *
 * Dispatches apply at once, and the refs read the current state. In the
 * hook the state ref is refreshed only at render, so a handler that reads
 * it after its own dispatch sees the state from before that dispatch. Where
 * that happens, the dispatch left the fields read unchanged, so both
 * readings agree: `handleOnkeyDown` reads the pre-selection after closing
 * the popover, and `handleOnSelect`, reached from there or from
 * `applyItemsAndSelect` after the list is set, reads the selection and the
 * list. `handleOpenAndRepopulate` pre-selects the selection it read before
 * refilling, even when a controlled refill has selected another item; the
 * model does the same. The one place where the readings differ is the
 * last valid selection that the value cell's `onChange` reads after a
 * selection; it is passed in explicitly as `shown`.
 * Each effect is a method that the host calls when the effect's
 * dependencies change. An `onStateChange` call is returned as `Some`.
 */
module ManagedAutocompletes {
  import opened Wrappers
  import opened OrderedMaps
  import opened JsStrings
  import opened AutocompleteTypes
  import opened Utils
  import opened ControllableStates

  datatype Mode = Async | Static
  datatype BlurAction = Restore | Clear | Keep
  /** Who asks for a selection: the user (`'selected'`) or a programmatic update (`'controller'`). */
  datatype SelectionSource = Selected | Controller
  /** The `items` prop: the candidates and the text they were searched for (`null` is `None`). */
  datatype ItemsProp = ItemsProp(data: seq<Item>, searchValue: Option<string>)
  /** A key handler registered by a list; the host runs it. */
  datatype KeyHandler = KeyHandler(name: string)
  datatype KeyOutcome = Overridden(handler: KeyHandler) | Handled(emitted: Option<StateChange>)

  /** The hook's props; the caller's `data` is not modelled, callbacks are flags or functions. */
  datatype Props = Props(
    blurAction: BlurAction,
    defaultValue: Option<string>,
    items: ItemsProp,
    loading: bool,
    minLengthRequired: int,
    mode: Mode,
    reset: bool,
    resetOnReselect: bool,
    value: Option<string>,
    filterItems: Option<(seq<Item>, string) -> seq<Item>>,
    hasOnStateChange: bool,
    hasSetReset: bool)

  /** The cache evicts its oldest key once it holds more than this many entries. */
  const CacheLimit := 3000

  /** The cache key of an item: its trimmed label and value joined by a dash. */
  function CacheKey(item: Item): (k: string)
    ensures k != []
  {
    var trimmedLabel := Trim(item.labelText);
    var trimmedValue := Trim(item.value);
    trimmedLabel + "-" + trimmedValue
  }

  /** The entries `processRawItems` hands to `new Map`, each item tagged with the hash of its key. */
  function IdentifiedPairs(hash: string -> string, source: seq<Item>): (r: seq<(string, IdentifiedItem)>)
    ensures |r| == |source|
  {
    seq(|source|, i requires 0 <= i < |source| => (hash(CacheKey(source[i])), WithIdentifier(source[i], hash(CacheKey(source[i])))))
  }

  lemma SetKeepsWellFormed(m: ItemMap, k: string, v: IdentifiedItem)
    requires WellFormedItems(m) && v.identifier == k
    ensures WellFormedItems(Set(m, k, v))
  {
  }

  /** After `set(k, v)` the map has `k`, still has every old key, and holds only old entries and `(k, v)`. */
  lemma SetKeys(m: ItemMap, k: string, v: IdentifiedItem)
    ensures var r := Set(m, k, v);
      && Has(r, k)
      && (forall i :: 0 <= i < |m| ==> Has(r, m[i].0))
      && (forall x :: x in r ==> x == (k, v) || x in m)
  {
    var r := Set(m, k, v);
    forall i | 0 <= i < |m| ensures Has(r, m[i].0) {
      if m[i].0 != k {
        assert Get(r, m[i].0) == Get(m, m[i].0);
        assert IndexOf(m, m[i].0) >= 0;
      }
    }
  }

  /** Setting entries keyed by their own identifier keeps a well-formed map, with every key new or old. */
  lemma {:induction false} SetAllIdentified(m: ItemMap, entries: seq<(string, IdentifiedItem)>)
    requires WellFormedItems(m)
    requires forall j :: 0 <= j < |entries| ==> entries[j].1.identifier == entries[j].0
    ensures var r := SetAll(m, entries);
      && WellFormedItems(r)
      && (forall j :: 0 <= j < |entries| ==> Has(r, entries[j].0))
      && (forall i :: 0 <= i < |m| ==> Has(r, m[i].0))
      && (forall i :: 0 <= i < |r| ==> r[i] in m || r[i] in entries)
    decreases |entries|
  {
    if entries != [] {
      var e := entries[0];
      var rest := entries[1..];
      var m' := Set(m, e.0, e.1);
      SetKeepsWellFormed(m, e.0, e.1);
      SetKeys(m, e.0, e.1);
      assert forall j :: 0 <= j < |rest| ==> rest[j] == entries[j + 1];
      SetAllIdentified(m', rest);
      var r := SetAll(m', rest);
      assert r == SetAll(m, entries);
      HasCarriesOver(m', r, e.0);
      forall j | 0 <= j < |entries| ensures Has(r, entries[j].0) {
        if j > 0 {
          assert entries[j] == rest[j - 1];
        }
      }
      forall i | 0 <= i < |m| ensures Has(r, m[i].0) {
        HasCarriesOver(m', r, m[i].0);
      }
      forall i | 0 <= i < |r| ensures r[i] in m || r[i] in entries {
        if r[i] in rest {
          assert r[i] in entries;
        } else {
          assert r[i] == e || r[i] in m;
        }
      }
    }
  }

  /** A key of `m` stays a key of any map that has all of `m`'s keys. */
  lemma HasCarriesOver(m: ItemMap, r: ItemMap, k: string)
    requires forall i :: 0 <= i < |m| ==> Has(r, m[i].0)
    requires Has(m, k)
    ensures Has(r, k)
  {
    var i := IndexOf(m, k);
    assert Has(r, m[i].0);
  }

  /**
   * The map `processRawItems` builds: keyed by its items' identifiers, with
   * an entry for every source item, and every entry a source item tagged
   * with the hash of its key.
   */
  lemma IdentifiedMapProperties(hash: string -> string, source: seq<Item>)
    ensures var r := SetAll([], IdentifiedPairs(hash, source));
      && WellFormedItems(r)
      && (forall j :: 0 <= j < |source| ==> Has(r, hash(CacheKey(source[j]))))
      && (forall x :: x in r ==> x in IdentifiedPairs(hash, source))
  {
    var pairs := IdentifiedPairs(hash, source);
    forall j | 0 <= j < |pairs| ensures pairs[j].1.identifier == pairs[j].0 {
      var id := hash(CacheKey(source[j]));
      assert pairs[j] == (id, WithIdentifier(source[j], id));
    }
    SetAllIdentified([], pairs);
    var r := SetAll([], pairs);
    forall j | 0 <= j < |source| ensures Has(r, hash(CacheKey(source[j]))) {
      assert pairs[j].0 == hash(CacheKey(source[j]));
    }
  }

  /** Two items with the same trimmed label and value receive the same identifier. */
  lemma SameTrimmedSameIdentifier(hash: string -> string, source: seq<Item>, a: int, b: int)
    requires 0 <= a < |source| && 0 <= b < |source|
    requires Trim(source[a].labelText) == Trim(source[b].labelText) && Trim(source[a].value) == Trim(source[b].value)
    ensures IdentifiedPairs(hash, source)[a].0 == IdentifiedPairs(hash, source)[b].0
  {
    assert CacheKey(source[a]) == CacheKey(source[b]);
  }

  // ---------------------------------------------------------------------
  // Static filtering

  /** The item's normalised label contains the normalised text. */
  predicate LabelContains(item: Item, needle: string) {
    Includes(FormatStr(Some(item.labelText), false), needle)
  }

  /** `items.filter(item => formatStr(item.label).includes(needle))` */
  function FilterByLabel(items: seq<Item>, needle: string): (r: seq<Item>)
    ensures |r| <= |items|
  {
    if items == [] then []
    else if LabelContains(items[0], needle) then [items[0]] + FilterByLabel(items[1..], needle)
    else FilterByLabel(items[1..], needle)
  }

  /** The filter keeps exactly the items whose normalised label contains the needle. */
  lemma {:induction false} FilterByLabelMembers(items: seq<Item>, needle: string)
    ensures forall x :: x in FilterByLabel(items, needle) <==> x in items && LabelContains(x, needle)
  {
    if items != [] {
      FilterByLabelMembers(items[1..], needle);
      assert items == [items[0]] + items[1..];
    }
  }

  /** The filter keeps the original order: it distributes over concatenation. */
  lemma {:induction false} FilterByLabelAppend(a: seq<Item>, b: seq<Item>, needle: string)
    ensures FilterByLabel(a + b, needle) == FilterByLabel(a, needle) + FilterByLabel(b, needle)
  {
    if a == [] {
      assert a + b == b;
    } else {
      assert (a + b)[0] == a[0];
      assert (a + b)[1..] == a[1..] + b;
      FilterByLabelAppend(a[1..], b, needle);
      if LabelContains(a[0], needle) {
        calc {
          FilterByLabel(a + b, needle);
          [a[0]] + FilterByLabel(a[1..] + b, needle);
          [a[0]] + (FilterByLabel(a[1..], needle) + FilterByLabel(b, needle));
          ([a[0]] + FilterByLabel(a[1..], needle)) + FilterByLabel(b, needle);
        }
      }
    }
  }

  /** When every item matches, the filter returns the items unchanged. */
  lemma {:induction false} FilterByLabelAll(items: seq<Item>, needle: string)
    requires forall i :: 0 <= i < |items| ==> LabelContains(items[i], needle)
    ensures FilterByLabel(items, needle) == items
  {
    if items != [] {
      var rest := items[1..];
      assert forall i :: 0 <= i < |rest| ==> rest[i] == items[i + 1];
      FilterByLabelAll(rest, needle);
      assert items == [items[0]] + rest;
    }
  }

  /** A text that normalises to nothing matches every item. */
  lemma EmptyNeedleKeepsAll(items: seq<Item>)
    ensures FilterByLabel(items, "") == items
  {
    forall i | 0 <= i < |items| ensures LabelContains(items[i], "") {
      assert "" <= FormatStr(Some(items[i].labelText), false);
    }
    FilterByLabelAll(items, "");
  }

  /**
   * The items the static filter offers once the text is long enough: the
   * caller's predicate when given; otherwise every item for an empty text,
   * and the items whose normalised label contains the normalised text, in
   * their original order, for any other text.
   */
  function StaticCandidates(filterItems: Option<(seq<Item>, string) -> seq<Item>>, items: seq<Item>, inputValue: string): (r: seq<Item>)
    ensures filterItems.None? ==> |r| <= |items|
    ensures filterItems.None? ==>
      forall x :: x in r <==> x in items && LabelContains(x, FormatStr(Some(inputValue), false))
  {
    match filterItems
    case Some(f) => f(items, inputValue)
    case None =>
      if inputValue == "" then
        EmptyNeedleKeepsAll(items);
        items
      else
        FilterByLabelMembers(items, FormatStr(Some(inputValue), false));
        FilterByLabel(items, FormatStr(Some(inputValue), false))
  }

  /** Without a caller's predicate, the result is exactly the order-preserving label filter. */
  lemma StaticCandidatesIsFilter(items: seq<Item>, inputValue: string)
    ensures StaticCandidates(None, items, inputValue) == FilterByLabel(items, FormatStr(Some(inputValue), false))
  {
    if inputValue == "" {
      EmptyNeedleKeepsAll(items);
    }
  }

  // ---------------------------------------------------------------------
  // The async result gate

  datatype AsyncDecision =
    | StillLoading               // only mark the search as running
    | ApplyEmpty(stop: bool)     // apply an empty list; `stop` ends the search
    | ApplyResults               // apply the results and end the search

  /**
   * What the async effect does with a response: it waits while loading,
   * clears the list for a text below the minimum length, accepts a
   * response without a search text, and drops a stale response (its text is
   * not the last request) or an irrelevant one (its text is not the input).
   */
  function AsyncGate(loading: bool, inputValue: string, minLengthRequired: int,
                     searchValue: Option<string>, lastRequest: string): (r: AsyncDecision)
    ensures r == StillLoading <==> loading
    ensures r == ApplyEmpty(true) <==> !loading && |inputValue| < minLengthRequired
    ensures r == ApplyResults <==>
      && !loading && |inputValue| >= minLengthRequired
      && (searchValue.Some? ==>
            FormatStr(searchValue, false) == lastRequest
            && FormatStr(Some(inputValue), false) == FormatStr(searchValue, false))
    ensures r == ApplyEmpty(false) <==>
      && !loading && |inputValue| >= minLengthRequired && searchValue.Some?
      && (FormatStr(searchValue, false) != lastRequest
          || FormatStr(Some(inputValue), false) != FormatStr(searchValue, false))
  {
    if loading then StillLoading
    else if |inputValue| < minLengthRequired then ApplyEmpty(true)
    else if searchValue.None? then ApplyResults
    else
      var isObsolete := FormatStr(searchValue, false) != lastRequest;
      var isIrrelevant := FormatStr(Some(inputValue), false) != FormatStr(Some(searchValue.GetOr("")), false);
      if isObsolete || isIrrelevant then ApplyEmpty(false) else ApplyResults
  }

  /** An accepted response with a search text answers the text the user sees. */
  lemma AcceptedAnswersInput(loading: bool, inputValue: string, minLengthRequired: int, searchValue: string, lastRequest: string)
    requires AsyncGate(loading, inputValue, minLengthRequired, Some(searchValue), lastRequest) == ApplyResults
    ensures LabelMatches(IdentifiedItem(searchValue, "", false, ""), inputValue, false)
  {
  }

  // ---------------------------------------------------------------------
  // The blur policy

  datatype BlurOutcome = NoBlurChange | RestoreSelection(item: IdentifiedItem) | ResetOnBlur

  /** `formatStr(lastValidSelection?.label)` */
  function SelectionLabel(lastValidSelection: Option<IdentifiedItem>): Option<string> {
    match lastValidSelection
    case Some(item) => Some(item.labelText)
    case None => None
  }

  /**
   * The blur policy: it acts only when focus does not move to a command
   * input and the text no longer shows the last valid selection; then
   * `restore` brings the selection back (or resets when there is none),
   * `clear` resets and `keep` leaves everything alone.
   */
  function BlurDecision(hasCmdkInput: bool, inputValue: string, lastValidSelection: Option<IdentifiedItem>,
                        action: BlurAction): (r: BlurOutcome)
    ensures r != NoBlurChange ==>
      !hasCmdkInput && FormatStr(Some(inputValue), false) != FormatStr(SelectionLabel(lastValidSelection), false)
    ensures r.RestoreSelection? <==>
      r != NoBlurChange && action == Restore && lastValidSelection.Some?
    ensures r.RestoreSelection? ==> r.item == lastValidSelection.value
    ensures r == ResetOnBlur <==>
      && !hasCmdkInput && FormatStr(Some(inputValue), false) != FormatStr(SelectionLabel(lastValidSelection), false)
      && (action == Clear || (action == Restore && lastValidSelection.None?))
    ensures action == Keep ==> r == NoBlurChange
  {
    if !hasCmdkInput && FormatStr(Some(inputValue), false) != FormatStr(SelectionLabel(lastValidSelection), false) then
      match action
      case Restore => if lastValidSelection.Some? then RestoreSelection(lastValidSelection.value) else ResetOnBlur
      case Clear => ResetOnBlur
      case Keep => NoBlurChange
    else NoBlurChange
  }

  /** After the selection is restored, a second blur changes nothing. */
  lemma BlurRestoreSettles(s: AutocompleteState, hasCmdkInput: bool, action: BlurAction)
    requires SelectionShown(s)
    requires BlurDecision(hasCmdkInput, s.inputValue, s.lastValidSelection, action).RestoreSelection?
    ensures var item := s.lastValidSelection.value;
      var s' := AutocompleteReduce(s, SelectItem(SelectPayload(item, false)));
      BlurDecision(hasCmdkInput, s'.inputValue, s'.lastValidSelection, action) == NoBlurChange
  {
    // The shown selection matches the text, so a restoring blur always has a new item to select.
    assert s.selectedValue != s.lastValidSelection;
  }

  /**
   * The reducer's initial state: the text is the current value, and the
   * item whose label matches it is both selected and pre-selected.
   */
  function InitialState(value: string, items: ItemMap): (s: AutocompleteState)
    ensures SelectionShown(s)
    ensures s.inputValue == value && s.filteredItems == items && !s.isOpen && !s.isLoading && !s.isSearching
    ensures s.selectedValue == s.lastValidSelection == FindMatchingItem(value, items, false)
    ensures s.preSelectedValue == (if s.selectedValue.Some? then s.selectedValue.value.identifier else "")
  {
    var m := FindMatchingItem(value, items, false);
    AutocompleteState(value, m, false, false, items, if m.Some? then m.value.identifier else "", false, m)
  }

  // ---------------------------------------------------------------------
  // The hook

  class ManagedAutocomplete {
    /** `propsRef` */
    var props: Props
    /** `itemsCache`: cache key to identifier, oldest first. */
    var itemsCache: OrderedMap<string, string>
    /** `isControlledUpdateRef` */
    var isControlledUpdate: bool
    /** `keyDownOverrides` */
    var keyDownOverrides: map<string, KeyHandler>
    /** `actionRef`: the tag of the pending `onStateChange` notification. */
    var actionRef: Option<ChangeKind>
    /** `lastUserInputValueRef` */
    var lastUserInput: Option<string>
    /** `lastRequestRef`: the normalised text of the last request. */
    var lastRequest: string
    /** The view-state reducer's state. */
    var state: AutocompleteState
    /** The error reducer's state. */
    var errors: ErrorState
    /** `initialValueRef`, never reassigned. */
    const initialValue: string
    /** The controllable value cell. */
    const cell: ControllableState<string>
    /** `djb2Hash` */
    const hash: string -> string
    /** `nonOpeningKeys` */
    const nonOpeningKeys: set<string>

    /** Every cached identifier is the hash of its key, the cache stays bounded, and no key is empty. */
    ghost predicate CacheValid()
      reads this`itemsCache
    {
      && DistinctKeys(itemsCache)
      && |itemsCache| <= CacheLimit + 1
      && (forall i :: 0 <= i < |itemsCache| ==> itemsCache[i].1 == hash(itemsCache[i].0) && itemsCache[i].0 != "")
    }

    /** The filtered map is keyed by identifier and a current selection is shown. */
    ghost predicate StateValid()
      reads this`state
    {
      WellFormedItems(state.filteredItems) && SelectionShown(state)
    }

    /** The cell sees the current value prop. */
    ghost predicate CellSynced()
      reads this`props, cell`controlled
    {
      cell.controlled == props.value
    }

    ghost predicate Valid()
      reads this`itemsCache, this`state, this`props, cell`controlled
    {
      CacheValid() && StateValid() && CellSynced()
    }

    /** No error, no pending action, no user input or request on record, no override. */
    ghost predicate RefsCleared()
      reads this`errors, this`actionRef, this`lastUserInput, this`lastRequest, this`isControlledUpdate, this`keyDownOverrides
    {
      errors == [] && actionRef == None && lastUserInput == None && lastRequest == ""
      && !isControlledUpdate && keyDownOverrides == map[]
    }

    /** The initial state: the processed items, with the item matching the initial value selected. */
    constructor(p: Props, hash: string -> string, nonOpeningKeys: set<string>)
      ensures Valid()
      ensures props == p && this.hash == hash && this.nonOpeningKeys == nonOpeningKeys
      ensures initialValue == p.value.GetOr(p.defaultValue.GetOr(""))
      ensures cell.Value() == initialValue && cell.controlled == p.value
      ensures cell.internal == cell.prevValue == p.defaultValue.GetOr("")
      ensures RefsCleared()
      ensures state == InitialState(initialValue, SetAll([], IdentifiedPairs(hash, p.items.data)))
    {
      props := p;
      itemsCache := [];
      isControlledUpdate := false;
      keyDownOverrides := map[];
      actionRef := None;
      lastUserInput := None;
      lastRequest := "";
      errors := [];
      initialValue := p.value.GetOr(p.defaultValue.GetOr(""));
      cell := new ControllableState(p.defaultValue.GetOr(""), p.value);
      this.hash := hash;
      this.nonOpeningKeys := nonOpeningKeys;
      state := AutocompleteState("", None, false, false, [], "", false, None);
      new;
      InitializeState(initialValue, p.items.data);
    }

    /** The reducer's lazy initialiser: the processed items, with the item matching the current value selected. */
    method InitializeState(currentValue: string, source: seq<Item>)
      requires CacheValid()
      modifies this`itemsCache, this`state
      ensures CacheValid() && StateValid()
      ensures state == InitialState(currentValue, SetAll([], IdentifiedPairs(hash, source)))
    {
      var initialItems := ProcessRawItems(source);
      state := InitialState(currentValue, initialItems);
    }

    /**
     * One cache lookup of `processRawItems`: a hit returns the cached
     * identifier and leaves the cache as it is (eviction follows insertion,
     * not use); a miss hashes the key, evicts the oldest key when the cache
     * holds more than `CacheLimit` entries, and stores the new identifier.
     */
    method LookupIdentifier(key: string) returns (identifier: string)
      requires CacheValid() && key != ""
      modifies this`itemsCache
      ensures CacheValid()
      ensures identifier == hash(key)
      ensures Has(itemsCache, key)
      ensures Has(old(itemsCache), key) && hash(key) != "" ==> itemsCache == old(itemsCache)
      ensures !Has(old(itemsCache), key) || hash(key) == "" ==>
        itemsCache == Set(if |old(itemsCache)| > CacheLimit then Delete(old(itemsCache), old(itemsCache)[0].0)
                          else old(itemsCache), key, hash(key))
    {
      var cached := Get(itemsCache, key);
      if cached.Some? && cached.value != "" {
        identifier := cached.value;
        var i := IndexOf(itemsCache, key);
        assert itemsCache[i].1 == hash(key);
      } else {
        identifier := hash(key);
        var before := itemsCache;
        if |itemsCache| > CacheLimit {
          var oldestKey := itemsCache[0].0;
          if oldestKey != "" {
            itemsCache := Delete(itemsCache, oldestKey);
            assert |itemsCache| == |before| - 1 by {
              IndexOfAt(before, oldestKey, 0);
            }
          }
        }
        CacheEntriesOfDelete(before, itemsCache);
        itemsCache := Set(itemsCache, key, identifier);
      }
    }

    /** Deleting keeps the cached entries a subset of the old ones. */
    lemma CacheEntriesOfDelete(before: OrderedMap<string, string>, after: OrderedMap<string, string>)
      requires DistinctKeys(before)
      requires after == before || (|before| > 0 && after == Delete(before, before[0].0))
      ensures forall i :: 0 <= i < |after| ==> after[i] in before
    {
      if after != before {
        IndexOfAt(before, before[0].0, 0);
        assert after == before[1..];
      }
    }

    /**
     * `processRawItems`: the map from each item's identifier to the item
     * tagged with it, in first-seen order; a later item with the same
     * identifier replaces an earlier one in place.
     */
    method ProcessRawItems(source: seq<Item>) returns (r: ItemMap)
      requires CacheValid()
      modifies this`itemsCache
      ensures CacheValid()
      ensures r == SetAll([], IdentifiedPairs(hash, source))
      ensures WellFormedItems(r)
    {
      ghost var pairs := IdentifiedPairs(hash, source);
      r := [];
      var i := 0;
      while i < |source|
        invariant 0 <= i <= |source|
        invariant CacheValid()
        invariant SetAll(r, pairs[i..]) == SetAll([], pairs)
      {
        var identifier := LookupIdentifier(CacheKey(source[i]));
        assert pairs[i..][0] == pairs[i] == (identifier, WithIdentifier(source[i], identifier));
        assert pairs[i..][1..] == pairs[i + 1..];
        r := Set(r, identifier, WithIdentifier(source[i], identifier));
        i := i + 1;
      }
      assert pairs[i..] == [];
      IdentifiedMapProperties(hash, source);
    }

    /** `registerKeydownOverride`: the handler now answers for the key. */
    method RegisterKeydownOverride(key: string, handler: KeyHandler)
      modifies this`keyDownOverrides
      ensures keyDownOverrides == old(keyDownOverrides)[key := handler]
    {
      keyDownOverrides := keyDownOverrides[key := handler];
    }

    /** The cleanup `registerKeydownOverride` returns: the key has no handler any more. */
    method UnregisterKeydownOverride(key: string)
      modifies this`keyDownOverrides
      ensures keyDownOverrides == old(keyDownOverrides) - {key}
    {
      keyDownOverrides := keyDownOverrides - {key};
    }

    /** The `onStateChange` call for a pending tag, when there is a tag and a listener. */
    function Notification(pending: Option<ChangeKind>, newValue: string, shown: Option<IdentifiedItem>): Option<StateChange>
      reads this`props
    {
      if pending.Some? && props.hasOnStateChange then
        Some(StateChange(pending.value, initialValue, newValue, if shown.Some? then shown.value.value else ""))
      else None
    }

    /**
     * `onChangeControllableState`: a pending tag is consumed and reported
     * once, with the initial value, the new value and the value of the last
     * valid selection; without a pending tag nothing happens.
     */
    method OnChangeControllableState(newValue: string, shown: Option<IdentifiedItem>) returns (emitted: Option<StateChange>)
      modifies this`actionRef
      ensures actionRef == None
      ensures emitted == Notification(old(actionRef), newValue, shown)
      ensures old(actionRef) == None ==> emitted == None
    {
      emitted := Notification(actionRef, newValue, shown);
      actionRef := None;
    }

    /**
     * The outcome of `setCurrentValue(v)` with tag `pending` set just before:
     * uncontrolled, the cell stores `v` and the tag waits for the commit;
     * controlled, the cell is untouched and a differing `v` consumes the tag
     * at once.
     */
    predicate ValueSettled(v: string, pending: Option<ChangeKind>, before: string,
                           shown: Option<IdentifiedItem>, emitted: Option<StateChange>)
      reads this`props, this`actionRef, cell`internal, cell`controlled
    {
      match cell.controlled
      case None => cell.internal == v && actionRef == pending && emitted == None
      case Some(c) =>
        && cell.internal == before
        && if v != c then actionRef == None && emitted == Notification(pending, v, shown)
           else actionRef == pending && emitted == None
    }

    /** `setCurrentValue(v)`; `shown` is the last valid selection of the last rendered state. */
    method SetCurrentValue(v: string, shown: Option<IdentifiedItem>) returns (emitted: Option<StateChange>)
      modifies cell`internal, this`actionRef
      ensures ValueSettled(v, old(actionRef), old(cell.internal), shown, emitted)
    {
      var notify := cell.SetValue(Replace(v));
      if notify.Some? {
        emitted := OnChangeControllableState(notify.value, shown);
      } else {
        emitted := None;
      }
    }

    /** `handleTooglePopover` */
    method HandleTogglePopover(open: bool)
      requires Valid()
      modifies this`state
      ensures Valid()
      ensures state == old(state).(isOpen := open)
    {
      ReduceKeepsItemsWellFormed(state, if open then OpenPopover else ClosePopover);
      ReduceKeepsSelectionShown(state, if open then OpenPopover else ClosePopover);
      state := AutocompleteReduce(state, if open then OpenPopover else ClosePopover);
    }

    /** `handleToggleLoading` */
    method HandleToggleLoading(loading: bool)
      requires Valid()
      modifies this`state
      ensures Valid()
      ensures state == old(state).(isLoading := loading)
    {
      ReduceKeepsItemsWellFormed(state, SetIsLoading(loading));
      ReduceKeepsSelectionShown(state, SetIsLoading(loading));
      state := AutocompleteReduce(state, SetIsLoading(loading));
    }

    /** `handleToggleSearching` */
    method HandleToggleSearching(searching: bool)
      requires Valid()
      modifies this`state
      ensures Valid()
      ensures state == old(state).(isSearching := searching)
    {
      ReduceKeepsItemsWellFormed(state, SetIsSearching(searching));
      ReduceKeepsSelectionShown(state, SetIsSearching(searching));
      state := AutocompleteReduce(state, SetIsSearching(searching));
    }

    /** `handleOnPreSelected` */
    method HandleOnPreSelected(identifier: string)
      requires Valid()
      modifies this`state
      ensures Valid()
      ensures state == old(state).(preSelectedValue := identifier)
    {
      ReduceKeepsItemsWellFormed(state, SetPreSelectionValue(identifier));
      ReduceKeepsSelectionShown(state, SetPreSelectionValue(identifier));
      state := AutocompleteReduce(state, SetPreSelectionValue(identifier));
    }

    /** `handleSetFilteredItems`: the processed items replace the filtered map, and are returned. */
    method HandleSetFilteredItems(items: seq<Item>) returns (processed: ItemMap)
      requires Valid()
      modifies this`itemsCache, this`state
      ensures Valid()
      ensures processed == SetAll([], IdentifiedPairs(hash, items)) && WellFormedItems(processed)
      ensures state == old(state).(filteredItems := processed)
    {
      processed := ProcessRawItems(items);
      ReduceKeepsItemsWellFormed(state, SetFilteredItems(processed));
      ReduceKeepsSelectionShown(state, SetFilteredItems(processed));
      state := AutocompleteReduce(state, SetFilteredItems(processed));
    }

    /**
     * What `handleReset` leaves behind when started from the view state
     * `s0`: the selection cleared, errors cleared, the popover closed unless
     * asked not to, the request forgotten, and the value set to empty under
     * the `RESET` tag.
     */
    twostate predicate ResetApplied(s0: AutocompleteState, closePopover: bool, new emitted: Option<StateChange>)
      reads this`state, this`errors, this`lastRequest, this`lastUserInput, this`actionRef, this`props,
            cell`internal, cell`controlled
    {
      && ClearedExceptOpen(state)
      && state.isOpen == (s0.isOpen && !closePopover)
      && state.isLoading == s0.isLoading
      && errors == []
      && lastRequest == "" && lastUserInput == Some("")
      && ValueSettled("", Some(Reset), old(cell.internal), s0.lastValidSelection, emitted)
    }

    /** `handleReset({ closePopover })`; an omitted option closes the popover. */
    method HandleReset(closePopover: bool) returns (emitted: Option<StateChange>)
      requires Valid()
      modifies this`state, this`errors, this`lastRequest, this`lastUserInput, this`actionRef, cell`internal
      ensures Valid()
      ensures ResetApplied(old(state), closePopover, emitted)
    {
      var shown := state.lastValidSelection;
      if closePopover {
        HandleTogglePopover(false);
      }
      errors := ErrorReduce(errors, ClearErrors);
      ErrorReduceClear(old(errors));
      ReduceClearSelection(state);
      state := AutocompleteReduce(state, ClearSelection);
      lastRequest := FormatStr(Some(""), false);
      lastUserInput := Some("");
      actionRef := Some(Reset);
      emitted := SetCurrentValue("", shown);
    }

    /** The view state is `s0` and no ref the selection handler may change has changed. */
    twostate predicate SelectionUntouched(s0: AutocompleteState, new emitted: Option<StateChange>)
      reads this`state, this`errors, this`lastRequest, this`lastUserInput, this`actionRef, cell`internal
    {
      && state == s0 && errors == old(errors) && lastRequest == old(lastRequest)
      && lastUserInput == old(lastUserInput) && actionRef == old(actionRef)
      && cell.internal == old(cell.internal) && emitted == None
    }

    /** The user picked the item that is already selected. */
    predicate IsReselection(s: AutocompleteState, identifier: string, source: SelectionSource) {
      s.selectedValue.Some? && identifier == s.selectedValue.value.identifier && source == Selected
    }

    /**
     * What selecting `item` leaves behind when started from the view state
     * `s0`: the item selected and shown, the request set to its label, a
     * user selection remembered as the last input, and the value set to the
     * label, tagged only for the user.
     */
    twostate predicate SelectionApplied(s0: AutocompleteState, item: IdentifiedItem, source: SelectionSource,
                                        new emitted: Option<StateChange>)
      reads this`state, this`errors, this`lastRequest, this`lastUserInput, this`actionRef, this`props,
            cell`internal, cell`controlled
    {
      && state == AutocompleteReduce(s0, SelectItem(SelectPayload(item, false)))
      && state.selectedValue == Some(item) && state.lastValidSelection == Some(item)
      && errors == old(errors)
      && lastRequest == FormatStr(Some(item.labelText), false)
      && lastUserInput == (if source == Selected then Some(item.labelText) else old(lastUserInput))
      && ValueSettled(item.labelText, if source == Selected then Some(ItemSelected) else None,
                      old(cell.internal), s0.lastValidSelection, emitted)
    }

    /**
     * What `handleOnSelect(identifier, itemsToSearchIn, source)` leaves
     * behind when started from the view state `s0`:
     * - the user re-selecting the current selection dispatches nothing, and
     *   resets only when `resetOnReselect` is set;
     * - an identifier missing from the searched map changes nothing;
     * - otherwise the item found is selected.
     */
    twostate predicate SelectOutcome(s0: AutocompleteState, identifier: string, itemsToSearchIn: Option<ItemMap>,
                                     source: SelectionSource, new emitted: Option<StateChange>)
      reads this`state, this`errors, this`lastRequest, this`lastUserInput, this`actionRef, this`props,
            cell`internal, cell`controlled
    {
      var items := itemsToSearchIn.GetOr(s0.filteredItems);
      if IsReselection(s0, identifier, source) then
        if props.resetOnReselect then ResetApplied(s0, true, emitted) else SelectionUntouched(s0, emitted)
      else if !Has(items, identifier) then SelectionUntouched(s0, emitted)
      else SelectionApplied(s0, Get(items, identifier).value, source, emitted)
    }

    /**
     * `handleOnSelect(identifier, itemsToSearchIn, action)`: the outcome
     * `SelectOutcome` describes, where the value is set to the item's label
     * tagged `ITEM_SELECTED` for the user and untagged for a controller, so
     * a controller selection never notifies.
     */
    method HandleOnSelect(identifier: string, itemsToSearchIn: Option<ItemMap>, source: SelectionSource)
      returns (emitted: Option<StateChange>)
      requires Valid()
      requires itemsToSearchIn.Some? ==> WellFormedItems(itemsToSearchIn.value)
      modifies this`state, this`errors, this`lastRequest, this`lastUserInput, this`actionRef, cell`internal
      ensures Valid()
      ensures SelectOutcome(old(state), identifier, itemsToSearchIn, source, emitted)
      ensures source == Controller ==> emitted == None && errors == old(errors) && lastUserInput == old(lastUserInput)
    {
      if IsReselection(state, identifier, source) {
        if props.resetOnReselect {
          emitted := HandleReset(true);
        } else {
          emitted := None;
        }
        return;
      }
      var items := if itemsToSearchIn.Some? then itemsToSearchIn.value else state.filteredItems;
      var found := Get(items, identifier);
      if found.None? {
        emitted := None;
        return;
      }
      ItemOfWellFormed(items, identifier);
      emitted := ApplySelection(found.value, source);
    }

    /** The selecting branch of `handleOnSelect`, for an item of the searched map. */
    method ApplySelection(item: IdentifiedItem, source: SelectionSource) returns (emitted: Option<StateChange>)
      requires Valid()
      modifies this`state, this`lastRequest, this`lastUserInput, this`actionRef, cell`internal
      ensures Valid()
      ensures SelectionApplied(old(state), item, source, emitted)
    {
      var shown := state.lastValidSelection;
      ReduceKeepsItemsWellFormed(state, SelectItem(SelectPayload(item, false)));
      ReduceKeepsSelectionShown(state, SelectItem(SelectPayload(item, false)));
      state := AutocompleteReduce(state, SelectItem(SelectPayload(item, false)));
      lastRequest := FormatStr(Some(item.labelText), false);
      if source == Selected {
        lastUserInput := Some(item.labelText);
        actionRef := Some(ItemSelected);
      } else {
        actionRef := None;
      }
      emitted := SetCurrentValue(item.labelText, shown);
    }

    /** The item found under an identifier of a well-formed map carries that identifier. */
    lemma ItemOfWellFormed(items: ItemMap, identifier: string)
      requires WellFormedItems(items) && Has(items, identifier)
      ensures Get(items, identifier).value.identifier == identifier
    {
    }

    /** The map `handleSetFilteredItems(items)` builds. */
    function Processed(items: seq<Item>): (r: ItemMap)
      ensures items == [] ==> r == []
    {
      assert items == [] ==> IdentifiedPairs(hash, items) == [];
      SetAll([], IdentifiedPairs(hash, items))
    }

    /**
     * The item `fn(items)` selects for the controller, starting from the view
     * state `s0`: the first match of the text in the processed items when
     * `fn` is `applyItemsAndSelect`, nothing when it is `handleSetFilteredItems`.
     */
    function Pick(s0: AutocompleteState, items: seq<Item>, controlled: bool): Option<IdentifiedItem> {
      if controlled then FindMatchingItem(s0.inputValue, Processed(items), false) else None
    }

    /** The view state `fn(items)` leaves behind, starting from `s0`: the new map, then the pick selected. */
    function RefilledState(s0: AutocompleteState, items: seq<Item>, controlled: bool): AutocompleteState {
      var t := s0.(filteredItems := Processed(items));
      var pick := Pick(s0, items, controlled);
      if pick.Some? then AutocompleteReduce(t, SelectItem(SelectPayload(pick.value, false))) else t
    }

    /**
     * The refs after a controller selection of `pick`, if any: errors and the
     * user's input kept; no pick leaves the tag and the cell alone, a pick
     * clears the tag and stores its label in an uncontrolled cell.
     */
    twostate predicate PickApplied(pick: Option<IdentifiedItem>)
      reads this`errors, this`lastUserInput, this`actionRef, cell`internal, cell`controlled
    {
      && errors == old(errors) && lastUserInput == old(lastUserInput)
      && (pick.None? ==> actionRef == old(actionRef) && cell.internal == old(cell.internal))
      && (pick.Some? ==> actionRef == None
                         && cell.internal == (if cell.controlled.None? then pick.value.labelText else old(cell.internal)))
    }

    /** The refs after `fn(items)` from the view state `s0`; `applyItemsAndSelect` lowers the controlled-update flag. */
    twostate predicate RefsRefilled(s0: AutocompleteState, items: seq<Item>, controlled: bool)
      reads this`errors, this`lastUserInput, this`actionRef, this`lastRequest, this`isControlledUpdate,
            cell`internal, cell`controlled
    {
      var pick := Pick(s0, items, controlled);
      && lastRequest == (if pick.Some? then FormatStr(Some(pick.value.labelText), false) else old(lastRequest))
      && PickApplied(pick)
      && isControlledUpdate == (if controlled then false else old(isControlledUpdate))
    }

    /**
     * What `fn(items)` leaves behind from the view state `s0`, where `fn` is
     * `applyItemsAndSelect` when `controlled` and `handleSetFilteredItems`
     * otherwise.
     */
    twostate predicate ItemsApplied(s0: AutocompleteState, items: seq<Item>, controlled: bool)
      reads this`state, this`errors, this`lastUserInput, this`actionRef, this`lastRequest, this`isControlledUpdate,
            cell`internal, cell`controlled
    {
      state == RefilledState(s0, items, controlled) && RefsRefilled(s0, items, controlled)
    }

    /**
     * `applyItemsAndSelect`: the processed items become the filtered map and
     * the item matching the current text, if any, is selected as a
     * controller selection, which notifies nobody.
     */
    method ApplyItemsAndSelect(items: seq<Item>)
      requires Valid()
      modifies this`isControlledUpdate, this`itemsCache, this`state, this`errors, this`lastRequest,
               this`lastUserInput, this`actionRef, cell`internal
      ensures Valid()
      ensures ItemsApplied(old(state), items, true)
    {
      isControlledUpdate := false;
      var inputValue := state.inputValue;
      var processed := HandleSetFilteredItems(items);
      SelectControllerMatch(inputValue, processed);
    }

    /** The selection step of `applyItemsAndSelect`: the matching item, if any, selected for the controller. */
    method SelectControllerMatch(inputValue: string, processed: ItemMap)
      requires Valid() && WellFormedItems(processed)
      modifies this`state, this`errors, this`lastRequest, this`lastUserInput, this`actionRef, cell`internal
      ensures Valid()
      ensures var m := FindMatchingItem(inputValue, processed, false);
        && state == (if m.Some? then AutocompleteReduce(old(state), SelectItem(SelectPayload(m.value, false))) else old(state))
        && lastRequest == (if m.Some? then FormatStr(Some(m.value.labelText), false) else old(lastRequest))
        && PickApplied(m)
    {
      var m := FindMatchingItem(inputValue, processed, false);
      if m.Some? {
        MatchIsEntry(processed, inputValue);
        assert !IsReselection(state, m.value.identifier, Controller);
        var emitted := HandleOnSelect(m.value.identifier, Some(processed), Controller);
      }
    }

    /** The first match of a well-formed map is the entry under its own identifier. */
    lemma MatchIsEntry(items: ItemMap, value: string)
      requires WellFormedItems(items) && FindMatchingItem(value, items, false).Some?
      ensures var m := FindMatchingItem(value, items, false).value;
        Has(items, m.identifier) && Get(items, m.identifier) == Some(m)
    {
      var m := FindMatchingItem(value, items, false).value;
      FindMatchingItemIsFirst(value, items, false);
      var i :| 0 <= i < |items| && items[i].1 == m && (forall j :: 0 <= j < i ==> !LabelMatches(items[j].1, value, false));
      IndexOfAt(items, m.identifier, i);
    }

    /**
     * `handleStaticFilter(items, inputValue)`: only in static mode; a text
     * below the minimum length empties the list, otherwise the candidates
     * replace it, and after a controlled update the matching item is
     * selected too.
     */
    method HandleStaticFilter(items: seq<Item>, inputValue: string)
      requires Valid()
      modifies this`isControlledUpdate, this`itemsCache, this`state, this`errors, this`lastRequest,
               this`lastUserInput, this`actionRef, cell`internal
      ensures Valid()
      ensures props.mode != Static ==>
        && state == old(state) && itemsCache == old(itemsCache)
        && lastRequest == old(lastRequest) && PickApplied(None) && isControlledUpdate == old(isControlledUpdate)
      ensures props.mode == Static && |inputValue| < props.minLengthRequired ==>
        ItemsApplied(old(state), [], false)
      ensures props.mode == Static && |inputValue| >= props.minLengthRequired ==>
        ItemsApplied(old(state), StaticCandidates(props.filterItems, items, inputValue), old(isControlledUpdate))
    {
      if props.mode != Static {
        return;
      }
      if |inputValue| < props.minLengthRequired {
        var processed := HandleSetFilteredItems([]);
        return;
      }
      var newItems := StaticCandidates(props.filterItems, items, inputValue);
      ApplyItems(isControlledUpdate, newItems);
    }

    /**
     * `handleChange(value)`: in async mode the search runs exactly when the
     * text is long enough; the text becomes the last request and the last
     * user input, and the value is set under the `INPUT_CHANGE` tag.
     */
    method HandleChange(value: string) returns (emitted: Option<StateChange>)
      requires Valid()
      modifies this`state, this`lastRequest, this`lastUserInput, this`actionRef, cell`internal
      ensures Valid()
      ensures state == (if props.mode == Async then old(state).(isSearching := |value| >= props.minLengthRequired)
                        else old(state))
      ensures lastRequest == FormatStr(Some(value), false) && lastUserInput == Some(value)
      ensures ValueSettled(value, Some(InputChange), old(cell.internal), old(state.lastValidSelection), emitted)
    {
      var shown := state.lastValidSelection;
      if props.mode == Async {
        HandleToggleSearching(|value| >= props.minLengthRequired);
      }
      lastRequest := FormatStr(Some(value), false);
      lastUserInput := Some(value);
      actionRef := Some(InputChange);
      emitted := SetCurrentValue(value, shown);
    }

    /**
     * `handleOpenAndRepopulate` (focus and mouse down): with a text long
     * enough, the list is refilled (static filter, or the async response
     * when it answers the text) and a current selection is pre-selected.
     */
    method HandleOpenAndRepopulate()
      requires Valid()
      modifies this`isControlledUpdate, this`itemsCache, this`state, this`errors, this`lastRequest,
               this`lastUserInput, this`actionRef, cell`internal
      ensures Valid()
      ensures |old(state.inputValue)| < props.minLengthRequired ==>
        && state == old(state) && lastRequest == old(lastRequest)
        && PickApplied(None) && isControlledUpdate == old(isControlledUpdate)
      ensures |old(state.inputValue)| >= props.minLengthRequired && old(state.selectedValue).None? ==>
        ItemsApplied(old(state), RefillSource(old(state.inputValue)), props.mode == Static && old(isControlledUpdate))
      ensures |old(state.inputValue)| >= props.minLengthRequired && old(state.selectedValue).Some? ==>
        var source := RefillSource(old(state.inputValue));
        var controlled := props.mode == Static && old(isControlledUpdate);
        var selected := old(state.selectedValue).value;
        && state == RefilledState(old(state), source, controlled).(preSelectedValue := selected.identifier)
        && lastRequest == FormatStr(Some(selected.labelText), false)
        && PickApplied(Pick(old(state), source, controlled))
        && isControlledUpdate == (if controlled then false else old(isControlledUpdate))
    {
      var inputValue := state.inputValue;
      var selectedValue := state.selectedValue;
      if |inputValue| < props.minLengthRequired {
        return;
      }
      Repopulate(inputValue);
      if selectedValue.Some? {
        PreSelectSelection(selectedValue.value);
      }
    }

    /** The last step of `handleOpenAndRepopulate`: the selection becomes the request and is pre-selected. */
    method PreSelectSelection(selected: IdentifiedItem)
      requires Valid()
      modifies this`state, this`lastRequest
      ensures Valid()
      ensures state == old(state).(preSelectedValue := selected.identifier)
      ensures lastRequest == FormatStr(Some(selected.labelText), false)
    {
      lastRequest := FormatStr(Some(selected.labelText), false);
      HandleOnPreSelected(selected.identifier);
    }

    /**
     * The items `handleOpenAndRepopulate` refills the list with for the text
     * `inputValue`: the static candidates, or in async mode the response
     * when it answers the text and nothing otherwise.
     */
    function RefillSource(inputValue: string): seq<Item>
      reads this`props
    {
      if props.mode == Static then StaticCandidates(props.filterItems, props.items.data, inputValue)
      else if FormatStr(Some(inputValue), false) != FormatStr(Some(props.items.searchValue.GetOr("")), false) then []
      else props.items.data
    }

    /**
     * The refill step of `handleOpenAndRepopulate`: `handleStaticFilter` in
     * static mode, `handleSetFilteredItems` in async mode.
     */
    method Repopulate(inputValue: string)
      requires Valid() && |inputValue| >= props.minLengthRequired
      modifies this`isControlledUpdate, this`itemsCache, this`state, this`errors, this`lastRequest,
               this`lastUserInput, this`actionRef, cell`internal
      ensures Valid()
      ensures ItemsApplied(old(state), RefillSource(inputValue), props.mode == Static && old(isControlledUpdate))
    {
      if props.mode == Static {
        HandleStaticFilter(props.items.data, inputValue);
      } else {
        var irrelevant := FormatStr(Some(inputValue), false) != FormatStr(Some(props.items.searchValue.GetOr("")), false);
        var processed := HandleSetFilteredItems(if irrelevant then [] else props.items.data);
      }
    }

    /**
     * `handleOnkeyDown(key)`: a registered override runs instead of
     * everything else; a key other than Enter opens the popover unless it
     * is a non-opening key; Enter closes the popover and selects the
     * pre-selected item, if any, as a user selection.
     */
    method HandleOnKeyDown(key: string) returns (outcome: KeyOutcome)
      requires Valid()
      modifies this`state, this`errors, this`lastRequest, this`lastUserInput, this`actionRef, cell`internal
      ensures Valid()
      ensures key in old(keyDownOverrides) ==>
        outcome == Overridden(old(keyDownOverrides)[key]) && SelectionUntouched(old(state), None)
      ensures key !in old(keyDownOverrides) && key != "Enter" ==>
        && outcome == Handled(None)
        && state == (if key in nonOpeningKeys then old(state) else old(state).(isOpen := true))
        && errors == old(errors) && lastRequest == old(lastRequest) && lastUserInput == old(lastUserInput)
        && actionRef == old(actionRef) && cell.internal == old(cell.internal)
      ensures key !in old(keyDownOverrides) && key == "Enter" ==>
        && outcome.Handled?
        && !state.isOpen
        && (old(state.preSelectedValue) == "" ==>
              outcome == Handled(None) && SelectionUntouched(old(state).(isOpen := false), None))
        && (old(state.preSelectedValue) != "" ==>
              SelectOutcome(old(state).(isOpen := false), old(state.preSelectedValue), None, Selected, outcome.emitted))
    {
      if key in keyDownOverrides {
        return Overridden(keyDownOverrides[key]);
      }
      if key != "Enter" {
        if key !in nonOpeningKeys {
          HandleTogglePopover(true);
        }
        return Handled(None);
      }
      HandleTogglePopover(false);
      var preselectValue := state.preSelectedValue;
      var emitted := None;
      if preselectValue != "" {
        emitted := HandleOnSelect(preselectValue, None, Selected);
      }
      outcome := Handled(emitted);
    }

    /**
     * `handleOnBlur`: applies the blur policy. Restoring re-selects the last
     * valid selection and sets the value to its label under the
     * `INPUT_CHANGE` tag; resetting is `handleReset()`.
     */
    method HandleOnBlur(hasCmdkInput: bool) returns (emitted: Option<StateChange>)
      requires Valid()
      modifies this`state, this`errors, this`lastRequest, this`lastUserInput, this`actionRef, cell`internal
      ensures Valid()
      ensures BlurDecision(hasCmdkInput, old(state.inputValue), old(state.lastValidSelection), props.blurAction) == NoBlurChange ==>
        SelectionUntouched(old(state), emitted)
      ensures BlurDecision(hasCmdkInput, old(state.inputValue), old(state.lastValidSelection), props.blurAction) == ResetOnBlur ==>
        ResetApplied(old(state), true, emitted)
      ensures BlurDecision(hasCmdkInput, old(state.inputValue), old(state.lastValidSelection), props.blurAction).RestoreSelection? ==>
        RestoreApplied(old(state.lastValidSelection.value), emitted)
    {
      var decision := BlurDecision(hasCmdkInput, state.inputValue, state.lastValidSelection, props.blurAction);
      match decision
      case NoBlurChange =>
        emitted := None;
      case ResetOnBlur =>
        emitted := HandleReset(true);
      case RestoreSelection(item) =>
        emitted := RestoreOnBlur(item);
    }

    /**
     * What restoring `item` on blur leaves behind: the item selected again,
     * the request set to its label, and the value set to the label under
     * the `INPUT_CHANGE` tag.
     */
    twostate predicate RestoreApplied(item: IdentifiedItem, new emitted: Option<StateChange>)
      reads this`state, this`errors, this`lastRequest, this`lastUserInput, this`actionRef, this`props,
            cell`internal, cell`controlled
    {
      && state == AutocompleteReduce(old(state), SelectItem(SelectPayload(item, false)))
      && errors == old(errors) && lastUserInput == old(lastUserInput)
      && lastRequest == FormatStr(Some(item.labelText), false)
      && ValueSettled(item.labelText, Some(InputChange), old(cell.internal), old(state.lastValidSelection), emitted)
    }

    /** The restoring branch of `handleOnBlur`. */
    method RestoreOnBlur(item: IdentifiedItem) returns (emitted: Option<StateChange>)
      requires Valid() && state.lastValidSelection == Some(item)
      modifies this`state, this`lastRequest, this`actionRef, cell`internal
      ensures Valid()
      ensures RestoreApplied(item, emitted)
    {
      var shown := state.lastValidSelection;
      ReduceKeepsItemsWellFormed(state, SelectItem(SelectPayload(item, false)));
      ReduceKeepsSelectionShown(state, SelectItem(SelectPayload(item, false)));
      state := AutocompleteReduce(state, SelectItem(SelectPayload(item, false)));
      lastRequest := FormatStr(Some(item.labelText), false);
      actionRef := Some(InputChange);
      emitted := SetCurrentValue(item.labelText, shown);
    }

    /**
     * The effect on the current value: a value that differs from the text
     * is dispatched as the new text. A value the user typed opens the
     * popover; any other value is a controlled update, which becomes the
     * last request and marks the next list as one to select from. In async
     * mode the list is cleared as well.
     */
    method ValueEffect()
      requires Valid()
      modifies this`state, this`lastUserInput, this`isControlledUpdate, this`lastRequest
      ensures Valid()
      ensures var cv := cell.Value();
        if cv == old(state.inputValue) then
          state == old(state) && lastUserInput == old(lastUserInput)
          && isControlledUpdate == old(isControlledUpdate) && lastRequest == old(lastRequest)
        else
          var wasUser := old(lastUserInput) == Some(cv);
          && lastUserInput == None
          && state == AutocompleteReduce(old(state), SetInputValue(cv, wasUser, props.mode == Async))
          && isControlledUpdate == (if wasUser then old(isControlledUpdate) else true)
          && lastRequest == (if wasUser then old(lastRequest) else FormatStr(Some(cv), false))
    {
      var currentValue := cell.Value();
      if currentValue == state.inputValue {
        return;
      }
      var wasUserInteraction := lastUserInput == Some(currentValue);
      lastUserInput := None;
      var clearItems := props.mode == Async;
      if !wasUserInteraction {
        isControlledUpdate := true;
        lastRequest := FormatStr(Some(currentValue), false);
      }
      var action := SetInputValue(currentValue, wasUserInteraction, clearItems);
      ReduceKeepsItemsWellFormed(state, action);
      ReduceKeepsSelectionShown(state, action);
      state := AutocompleteReduce(state, action);
    }

    /**
     * `fn(items)` of the static filter and of the async effect, with `fn`
     * chosen by the controlled-update flag read as `useApply`: select from
     * the list after a controlled update, else just set it.
     */
    method ApplyItems(useApply: bool, items: seq<Item>)
      requires Valid()
      modifies this`isControlledUpdate, this`itemsCache, this`state, this`errors, this`lastRequest,
               this`lastUserInput, this`actionRef, cell`internal
      ensures Valid()
      ensures ItemsApplied(old(state), items, useApply)
    {
      if useApply {
        ApplyItemsAndSelect(items);
      } else {
        var processed := HandleSetFilteredItems(items);
      }
    }

    /**
     * The async effect on a new response or loading flag: the loading flag
     * is mirrored, and then the gate decides whether the response is
     * applied, an empty list is applied, and whether the search ends.
     */
    method AsyncEffect()
      requires Valid()
      modifies this`isControlledUpdate, this`itemsCache, this`state, this`errors, this`lastRequest,
               this`lastUserInput, this`actionRef, cell`internal
      ensures Valid()
      ensures props.mode != Async ==>
        && state == old(state) && lastRequest == old(lastRequest)
        && PickApplied(None) && isControlledUpdate == old(isControlledUpdate)
      ensures props.mode == Async ==>
        var loaded := old(state).(isLoading := props.loading);
        match AsyncGate(props.loading, old(state.inputValue), props.minLengthRequired, props.items.searchValue, old(lastRequest))
        case StillLoading =>
          && state == old(state).(isLoading := true, isSearching := true)
          && lastRequest == old(lastRequest) && PickApplied(None) && isControlledUpdate == old(isControlledUpdate)
        case ApplyEmpty(stop) =>
          && state == (var r := RefilledState(loaded, [], old(isControlledUpdate));
                       if stop then r.(isSearching := false) else r)
          && RefsRefilled(loaded, [], old(isControlledUpdate))
        case ApplyResults =>
          && state == RefilledState(loaded, props.items.data, old(isControlledUpdate)).(isSearching := false)
          && RefsRefilled(loaded, props.items.data, old(isControlledUpdate))
    {
      if props.mode != Async {
        return;
      }
      var inputValue := state.inputValue;
      var searchValue := props.items.searchValue;
      var newItems := props.items.data;
      HandleToggleLoading(props.loading);
      var decision := AsyncGate(props.loading, inputValue, props.minLengthRequired, searchValue, lastRequest);
      if decision == StillLoading {
        HandleToggleSearching(true);
        return;
      }
      var useApply := isControlledUpdate;
      match decision
      case ApplyEmpty(stop) =>
        ApplyItems(useApply, []);
        if stop {
          HandleToggleSearching(false);
        }
      case ApplyResults =>
        ApplyItems(useApply, newItems);
        HandleToggleSearching(false);
    }

    /** The static effect on a new text or new items: the static filter over the current text. */
    method StaticEffect()
      requires Valid()
      modifies this`isControlledUpdate, this`itemsCache, this`state, this`errors, this`lastRequest,
               this`lastUserInput, this`actionRef, cell`internal
      ensures Valid()
      ensures props.mode != Static ==>
        && state == old(state) && lastRequest == old(lastRequest)
        && PickApplied(None) && isControlledUpdate == old(isControlledUpdate)
      ensures props.mode == Static && |old(state.inputValue)| < props.minLengthRequired ==>
        ItemsApplied(old(state), [], false)
      ensures props.mode == Static && |old(state.inputValue)| >= props.minLengthRequired ==>
        ItemsApplied(old(state), StaticCandidates(props.filterItems, props.items.data, old(state.inputValue)), old(isControlledUpdate))
    {
      if props.mode != Static {
        return;
      }
      HandleStaticFilter(props.items.data, state.inputValue);
    }

    /**
     * The reset effect: with the `reset` flag up and a `setReset` to lower
     * it, the flag is lowered (`clearFlag`) and the component resets.
     */
    method ResetEffect() returns (clearFlag: bool, emitted: Option<StateChange>)
      requires Valid()
      modifies this`state, this`errors, this`lastRequest, this`lastUserInput, this`actionRef, cell`internal
      ensures Valid()
      ensures clearFlag == (props.reset && props.hasSetReset)
      ensures clearFlag ==> ResetApplied(old(state), true, emitted)
      ensures !clearFlag ==> SelectionUntouched(old(state), emitted)
    {
      clearFlag := props.reset && props.hasSetReset;
      emitted := None;
      if clearFlag {
        emitted := HandleReset(true);
      }
    }

    /**
     * The commit effect of an uncontrolled value cell: a value that differs
     * from the last one reported consumes the pending tag.
     */
    method ControllableEffect() returns (emitted: Option<StateChange>)
      requires Valid()
      modifies cell`prevValue, this`actionRef
      ensures Valid()
      ensures cell.prevValue == cell.internal
      ensures old(cell.prevValue) != cell.internal ==>
        actionRef == None && emitted == Notification(old(actionRef), cell.internal, state.lastValidSelection)
      ensures old(cell.prevValue) == cell.internal ==> actionRef == old(actionRef) && emitted == None
    {
      var notify := cell.CommitEffect();
      if notify.Some? {
        emitted := OnChangeControllableState(notify.value, state.lastValidSelection);
      } else {
        emitted := None;
      }
    }

    /** A new render: the props are taken over and the value prop reaches the cell. */
    method Rerender(p: Props)
      requires Valid()
      modifies this`props, cell`controlled
      ensures Valid()
      ensures props == p
    {
      props := p;
      cell.Sync(p.value);
    }
  }
}

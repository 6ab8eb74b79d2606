/**
 * The text input's value logic (`useManagedInput`): a class whose fields
 * are the hook's states and refs, and whose methods are its handlers and
 * effects. The value itself lives in a controllable cell.
 *
 * The number helpers of the input's utilities (sanitising, the partial,
 * minimum, maximum and range checks, the maximum-length check) and the
 * number formatter are functions the class is given; an `onValueChange`
 * call is returned as `Some`.
 */
module ManagedInputs {
  import opened Wrappers
  import opened OrderedMaps
  import opened JsStrings
  import opened Utils
  import opened ControllableStates

  datatype InputType = Text | Number

  /** `limits`: the messages; the bounds themselves are inside the helpers that check them. */
  datatype Limits = Limits(minMessageError: Option<string>, maxMessageError: Option<string>)
  /** `between`: the message; the range is inside the helper that checks it. */
  datatype Between = Between(messageError: Option<string>)

  /** The hook's props; `data` and the callbacks other than presence flags are not modelled. */
  datatype InputProps = InputProps(
    defaultValue: Option<string>,
    reset: bool,
    resetToInitialValue: Option<bool>,
    inputType: InputType,
    value: Option<string>,
    hasSetReset: bool,
    maxLength: Option<int>,
    hasOnValueChange: bool,
    formatterActive: bool,
    limits: Option<Limits>,
    between: Option<Between>)

  /** The helpers the hook calls, for the current props. */
  datatype InputHelpers = InputHelpers(
    sanitize: string -> string,
    isPartial: string -> bool,
    isMinExceeded: string -> bool,
    isMaxExceeded: string -> bool,
    isInvalidRange: string -> bool,
    format: string -> string,
    isMaxLengthExceeded: (string, int) -> bool)

  /** The `onValueChange` payload; the numeric payload's `floatValue` is not modelled. */
  datatype ValueChange =
    | TextChange(value: string, initialValue: string)
    | NumberChange(value: string, initialValue: string, isComplete: bool)

  const LimitsMinKey := "limits_min"
  const LimitsMaxKey := "limits_max"
  const BetweenKey := "between"
  const DefaultMinMessage := "El valor es menor al m\U{00ED}nimo permitido"
  const DefaultMaxMessage := "El valor es mayor al m\U{00E1}ximo permitido"
  const DefaultBetweenMessage := "El valor no encuentra en el rango permitido"

  // ---------------------------------------------------------------------
  // Text processing

  /** `validateMaxLength`: an absent or zero maximum never truncates; otherwise the helper decides. */
  function ValidateMaxLength(maxLength: Option<int>, isMaxLengthExceeded: (string, int) -> bool, value: string): (r: bool)
    ensures maxLength.None? || maxLength == Some(0) ==> !r
  {
    maxLength.Some? && maxLength.value != 0 && isMaxLengthExceeded(value, maxLength.value)
  }

  /** The text branch of `processRawValue`: trimmed on request, then cut to the maximum length when it is exceeded. */
  function ProcessText(raw: string, trimmed: bool, maxLength: Option<int>, isMaxLengthExceeded: (string, int) -> bool): (r: string)
    ensures r <= (if trimmed then Trim(raw) else raw)
  {
    var value := if trimmed then Trim(raw) else raw;
    if ValidateMaxLength(maxLength, isMaxLengthExceeded, value) then SliceTo(value, maxLength.value) else value
  }

  /** The maximum-length helper compares the length with the maximum. */
  ghost predicate ChecksLength(isMaxLengthExceeded: (string, int) -> bool) {
    forall v, n :: isMaxLengthExceeded(v, n) == (|v| > n)
  }

  /** Without a maximum (absent or zero) the text is only trimmed, if asked. */
  lemma ProcessTextWithoutLimit(raw: string, trimmed: bool, maxLength: Option<int>, isMaxLengthExceeded: (string, int) -> bool)
    requires maxLength.None? || maxLength == Some(0)
    ensures ProcessText(raw, trimmed, maxLength, isMaxLengthExceeded) == if trimmed then Trim(raw) else raw
  {
  }

  /** A positive maximum cuts a longer text to exactly that many characters and leaves a shorter one alone. */
  lemma ProcessTextTruncates(raw: string, trimmed: bool, n: int, isMaxLengthExceeded: (string, int) -> bool)
    requires ChecksLength(isMaxLengthExceeded) && n > 0
    ensures var value := if trimmed then Trim(raw) else raw;
      var r := ProcessText(raw, trimmed, Some(n), isMaxLengthExceeded);
      && (|value| > n ==> r == value[..n] && |r| == n)
      && (|value| <= n ==> r == value)
  {
    var value := if trimmed then Trim(raw) else raw;
    assert isMaxLengthExceeded(value, n) == (|value| > n);
  }

  /** Processing an untrimmed text twice is processing it once. */
  lemma ProcessTextStable(raw: string, maxLength: Option<int>, isMaxLengthExceeded: (string, int) -> bool)
    requires ChecksLength(isMaxLengthExceeded) && (maxLength.None? || maxLength.value >= 0)
    ensures var once := ProcessText(raw, false, maxLength, isMaxLengthExceeded);
      ProcessText(once, false, maxLength, isMaxLengthExceeded) == once
  {
    var once := ProcessText(raw, false, maxLength, isMaxLengthExceeded);
    if maxLength.Some? && maxLength.value != 0 {
      var n := maxLength.value;
      assert isMaxLengthExceeded(raw, n) == (|raw| > n);
      assert isMaxLengthExceeded(once, n) == (|once| > n);
    }
  }

  /**
   * With trimming, a second pass may still change the text (cutting can
   * leave trailing blanks), but a third pass never does: the controlled
   * write-back settles after at most two rounds.
   */
  lemma WriteBackSettles(raw: string, maxLength: Option<int>, isMaxLengthExceeded: (string, int) -> bool)
    requires ChecksLength(isMaxLengthExceeded) && (maxLength.None? || maxLength.value >= 0)
    ensures var twice := ProcessText(ProcessText(raw, true, maxLength, isMaxLengthExceeded), true, maxLength, isMaxLengthExceeded);
      ProcessText(twice, true, maxLength, isMaxLengthExceeded) == twice
  {
    var once := ProcessText(raw, true, maxLength, isMaxLengthExceeded);
    var twice := ProcessText(once, true, maxLength, isMaxLengthExceeded);
    TrimIdempotent(once);
    if maxLength.Some? && maxLength.value != 0 {
      var n := maxLength.value;
      assert isMaxLengthExceeded(Trim(raw), n) == (|Trim(raw)| > n);
      assert |once| <= n;
      assert isMaxLengthExceeded(Trim(once), n) == (|Trim(once)| > n);
      assert twice == Trim(once);
      assert isMaxLengthExceeded(Trim(twice), n) == (|Trim(twice)| > n);
    }
  }

  /** One round is not always enough: "ab c" cut to three characters keeps a trailing blank that the next round trims. */
  lemma WriteBackTwoRounds(isMaxLengthExceeded: (string, int) -> bool)
    requires ChecksLength(isMaxLengthExceeded)
    ensures ProcessText("ab c", true, Some(3), isMaxLengthExceeded) == "ab "
    ensures ProcessText("ab ", true, Some(3), isMaxLengthExceeded) == "ab"
  {
    assert Trim("ab c") == "ab c" by {
      assert !IsWhiteSpace('a') && !IsWhiteSpace('c');
    }
    assert isMaxLengthExceeded("ab c", 3);
    assert Trim("ab ") == "ab" by {
      assert TrimEnd("ab ") == TrimEnd("ab");
      assert !IsWhiteSpace('a') && !IsWhiteSpace('b');
    }
    assert !isMaxLengthExceeded("ab", 3);
  }

  // ---------------------------------------------------------------------
  // Error checks

  /** One entry of the error checks: the key, whether its check fails, and the message. */
  datatype Validation = Validation(key: string, invalid: bool, message: string)

  /** After the check, a failing key carries its message (an empty message changes nothing) and a passing key has none. */
  predicate Checked(before: ErrorState, after: ErrorState, v: Validation) {
    if !v.invalid then Get(after, v.key) == None
    else if v.message == "" then Get(after, v.key) == Get(before, v.key)
    else Get(after, v.key) == Some(v.message)
  }

  function ValidationKeys(validations: seq<Validation>): set<string> {
    set v | v in validations :: v.key
  }

  /** Every check holds afterwards, and every other key is as it was. */
  ghost predicate ErrorsChecked(before: ErrorState, after: ErrorState, validations: seq<Validation>) {
    && (forall i :: 0 <= i < |validations| ==> Checked(before, after, validations[i]))
    && (forall k :: k !in ValidationKeys(validations) ==> Get(after, k) == Get(before, k))
  }

  predicate DistinctValidationKeys(validations: seq<Validation>) {
    forall i, j :: 0 <= i < j < |validations| ==> validations[i].key != validations[j].key
  }

  /** Checks on disjoint keys, run one after the other, add up. */
  lemma ErrorsCheckedCompose(a: ErrorState, b: ErrorState, c: ErrorState, v1: seq<Validation>, v2: seq<Validation>)
    requires ErrorsChecked(a, b, v1) && ErrorsChecked(b, c, v2)
    requires ValidationKeys(v1) !! ValidationKeys(v2)
    ensures ErrorsChecked(a, c, v1 + v2)
  {
    var v := v1 + v2;
    forall i | 0 <= i < |v| ensures Checked(a, c, v[i]) {
      if i < |v1| {
        assert v[i] == v1[i];
        assert v1[i].key !in ValidationKeys(v2);
      } else {
        assert v[i] == v2[i - |v1|];
        assert v2[i - |v1|].key !in ValidationKeys(v1);
      }
    }
    forall k | k !in ValidationKeys(v) ensures Get(c, k) == Get(a, k) {
      assert ValidationKeys(v) == ValidationKeys(v1) + ValidationKeys(v2);
    }
  }

  /** The range check of `validateBetween`; without a range nothing fails. */
  function BetweenValidation(between: Option<Between>, h: InputHelpers, value: string): Validation {
    Validation(BetweenKey, between.Some? && h.isInvalidRange(value),
               if between.Some? then between.value.messageError.GetOr(DefaultBetweenMessage) else "")
  }

  /** The two checks of `validateLimits`; without limits nothing fails. */
  function LimitsValidations(limits: Option<Limits>, h: InputHelpers, value: string): seq<Validation> {
    match limits
    case None => [Validation(LimitsMinKey, false, ""), Validation(LimitsMaxKey, false, "")]
    case Some(l) =>
      [Validation(LimitsMinKey, h.isMinExceeded(value), l.minMessageError.GetOr(DefaultMinMessage)),
       Validation(LimitsMaxKey, h.isMaxExceeded(value), l.maxMessageError.GetOr(DefaultMaxMessage))]
  }

  lemma LimitsKeys(limits: Option<Limits>, h: InputHelpers, value: string)
    ensures ValidationKeys(LimitsValidations(limits, h, value)) == {LimitsMinKey, LimitsMaxKey}
    ensures DistinctValidationKeys(LimitsValidations(limits, h, value))
    ensures BetweenKey !in ValidationKeys(LimitsValidations(limits, h, value))
  {
    assert LimitsMinKey[8] != LimitsMaxKey[8];
    var vs := LimitsValidations(limits, h, value);
    assert vs[0] in vs && vs[1] in vs;
  }

  // ---------------------------------------------------------------------
  // The hook

  class ManagedInput {
    var props: InputProps
    var helpers: InputHelpers
    /** The error reducer's state. */
    var errors: ErrorState
    var isFocused: bool
    var valueFormatted: string
    /** `initialValueRef`: the value shown at mount. */
    const initialValue: string
    /** The controllable value cell. */
    const cell: ControllableState<string>

    ghost predicate Valid()
      reads this`errors, this`props, cell`controlled
    {
      DistinctKeys(errors) && cell.controlled == props.value
    }

    /** What `processRawValue` returns: the sanitised number, or the processed text. */
    function ProcessedValue(raw: string, trimmed: bool): string
      reads this`props, this`helpers
    {
      if props.inputType == Number then helpers.sanitize(if trimmed then Trim(raw) else raw)
      else ProcessText(raw, trimmed, props.maxLength, helpers.isMaxLengthExceeded)
    }

    /** The checks a number input runs on its sanitised value: the range, then the limits. */
    function NumberValidations(value: string): seq<Validation>
      reads this`props, this`helpers
    {
      [BetweenValidation(props.between, helpers, value)] + LimitsValidations(props.limits, helpers, value)
    }

    /**
     * Mounting: the default value is processed (for a number input this
     * runs the checks and the formatter), the cell starts from it, and the
     * initial value is what the cell shows.
     */
    constructor(p: InputProps, h: InputHelpers)
      ensures Valid()
      ensures props == p && helpers == h && !isFocused
      ensures cell.internal == cell.prevValue == ProcessedValue(p.defaultValue.GetOr(""), true) && cell.controlled == p.value
      ensures initialValue == cell.Value() == p.value.GetOr(ProcessedValue(p.defaultValue.GetOr(""), true))
      ensures p.inputType == Text ==> errors == [] && valueFormatted == ""
      ensures p.inputType == Number ==>
        ErrorsChecked([], errors, NumberValidations(ProcessedValue(p.defaultValue.GetOr(""), true)))
      ensures p.inputType == Number ==>
        valueFormatted == (if p.formatterActive then h.format(ProcessedValue(p.defaultValue.GetOr(""), true)) else "")
    {
      props := p;
      helpers := h;
      errors := [];
      isFocused := false;
      valueFormatted := "";
      var processed := if p.inputType == Number then h.sanitize(Trim(p.defaultValue.GetOr("")))
                       else ProcessText(p.defaultValue.GetOr(""), true, p.maxLength, h.isMaxLengthExceeded);
      cell := new ControllableState(processed, p.value);
      initialValue := p.value.GetOr(processed);
      new;
      var again := ProcessRawValue(p.defaultValue.GetOr(""), true);
    }

    /** `validateLimits`: both limit checks through the error map. */
    method ValidateLimits(value: string)
      requires DistinctKeys(errors)
      modifies this`errors
      ensures DistinctKeys(errors)
      ensures ErrorsChecked(old(errors), errors, LimitsValidations(props.limits, helpers, value))
    {
      LimitsKeys(props.limits, helpers, value);
      ApplyValidations(LimitsValidations(props.limits, helpers, value));
    }

    /** The `forEach` of `validateLimits`: a failing check adds its message, a passing one removes its key. */
    method ApplyValidations(validations: seq<Validation>)
      requires DistinctKeys(errors) && DistinctValidationKeys(validations)
      modifies this`errors
      ensures DistinctKeys(errors)
      ensures ErrorsChecked(old(errors), errors, validations)
    {
      var i := 0;
      while i < |validations|
        invariant 0 <= i <= |validations|
        invariant DistinctKeys(errors)
        invariant ErrorsChecked(old(errors), errors, validations[..i])
      {
        var v := validations[i];
        ghost var before := errors;
        ApplyValidation(v);
        assert v.key !in ValidationKeys(validations[..i]) by {
          forall j | 0 <= j < i ensures validations[..i][j].key != v.key {
            assert validations[..i][j] == validations[j];
          }
        }
        ErrorsCheckedCompose(old(errors), before, errors, validations[..i], [v]);
        assert validations[..i] + [v] == validations[..i + 1];
        i := i + 1;
      }
      assert validations[..i] == validations;
    }

    /** One check: a failure adds its message, a pass removes its key. */
    method ApplyValidation(v: Validation)
      requires DistinctKeys(errors)
      modifies this`errors
      ensures DistinctKeys(errors)
      ensures ErrorsChecked(old(errors), errors, [v])
    {
      if v.invalid {
        ErrorReduceAdd(errors, v.key, v.message);
        errors := ErrorReduce(errors, AddError(v.key, v.message));
      } else {
        ErrorReduceRemove(errors, v.key);
        errors := ErrorReduce(errors, RemoveError(v.key));
      }
      assert ValidationKeys([v]) == {v.key};
    }

    /** `validateBetween`: the range check through the error map; the `subscribeBetween` callback is not modelled. */
    method ValidateBetween(value: string)
      requires DistinctKeys(errors)
      modifies this`errors
      ensures DistinctKeys(errors)
      ensures ErrorsChecked(old(errors), errors, [BetweenValidation(props.between, helpers, value)])
    {
      ApplyValidation(BetweenValidation(props.between, helpers, value));
    }

    /** `formatValue(value, setSanitize)`: only with an active formatter, on the value or its sanitised form. */
    method FormatValue(value: string, setSanitize: bool)
      modifies this`valueFormatted
      ensures props.formatterActive ==>
        valueFormatted == helpers.format(if setSanitize then helpers.sanitize(value) else value)
      ensures !props.formatterActive ==> valueFormatted == old(valueFormatted)
    {
      if !props.formatterActive {
        return;
      }
      var valueSanitize := if setSanitize then helpers.sanitize(value) else value;
      valueFormatted := helpers.format(valueSanitize);
    }

    /**
     * `processRawValue(rawValue, trimmed)`: a number is sanitised, checked
     * and formatted as it is; a text is processed with no other effect.
     */
    method ProcessRawValue(raw: string, trimmed: bool) returns (newValue: string)
      requires DistinctKeys(errors)
      modifies this`errors, this`valueFormatted
      ensures DistinctKeys(errors)
      ensures newValue == ProcessedValue(raw, trimmed)
      ensures props.inputType == Text ==> errors == old(errors) && valueFormatted == old(valueFormatted)
      ensures props.inputType == Number ==> ErrorsChecked(old(errors), errors, NumberValidations(newValue))
      ensures props.inputType == Number ==>
        valueFormatted == (if props.formatterActive then helpers.format(newValue) else old(valueFormatted))
    {
      var value := if trimmed then Trim(raw) else raw;
      if props.inputType == Number {
        newValue := helpers.sanitize(value);
        ghost var start := errors;
        ValidateBetween(newValue);
        ghost var mid := errors;
        ValidateLimits(newValue);
        LimitsKeys(props.limits, helpers, newValue);
        assert ValidationKeys([BetweenValidation(props.between, helpers, newValue)]) == {BetweenKey};
        ErrorsCheckedCompose(start, mid, errors, [BetweenValidation(props.between, helpers, newValue)],
                             LimitsValidations(props.limits, helpers, newValue));
        FormatValue(newValue, false);
      } else {
        newValue := ProcessText(raw, trimmed, props.maxLength, helpers.isMaxLengthExceeded);
      }
    }

    /** The `onValueChange` call for a new value, when there is a listener. */
    function Notification(newValue: string): Option<ValueChange>
      reads this`props, this`helpers
    {
      if !props.hasOnValueChange then None
      else if props.inputType == Number then Some(NumberChange(newValue, initialValue, !helpers.isPartial(newValue)))
      else Some(TextChange(newValue, initialValue))
    }

    /**
     * `setCurrentValue(v)`: uncontrolled, the cell stores `v` and the
     * commit effect reports it; controlled, the cell is untouched and a `v`
     * that differs from the prop is reported at once.
     */
    method SetCurrentValue(v: string) returns (emitted: Option<ValueChange>)
      modifies cell`internal
      ensures cell.controlled.None? ==> cell.internal == v && emitted == None
      ensures cell.controlled.Some? ==>
        && cell.internal == old(cell.internal)
        && emitted == (if v != cell.controlled.value then Notification(v) else None)
    {
      var notify := cell.SetValue(Replace(v));
      emitted := if notify.Some? then Notification(notify.value) else None;
    }

    /** The cell's commit effect, reported through `onValueChange`. */
    method ControllableEffect() returns (emitted: Option<ValueChange>)
      modifies cell`prevValue
      ensures cell.prevValue == cell.internal
      ensures emitted == (if old(cell.prevValue) != cell.internal then Notification(cell.internal) else None)
    {
      var notify := cell.CommitEffect();
      emitted := if notify.Some? then Notification(notify.value) else None;
    }

    /** `handleChange`: the typed text is processed without trimming and becomes the value. */
    method HandleChange(raw: string) returns (emitted: Option<ValueChange>)
      requires Valid()
      modifies this`errors, this`valueFormatted, cell`internal
      ensures Valid()
      ensures cell.controlled.None? ==> cell.internal == ProcessedValue(raw, false) && emitted == None
      ensures cell.controlled.Some? ==>
        && cell.internal == old(cell.internal)
        && emitted == (if ProcessedValue(raw, false) != cell.controlled.value then Notification(ProcessedValue(raw, false)) else None)
      ensures props.inputType == Text ==> errors == old(errors) && valueFormatted == old(valueFormatted)
      ensures props.inputType == Number ==> ErrorsChecked(old(errors), errors, NumberValidations(ProcessedValue(raw, false)))
      ensures props.inputType == Number ==>
        valueFormatted == (if props.formatterActive then helpers.format(ProcessedValue(raw, false)) else old(valueFormatted))
    {
      var newValue := ProcessRawValue(raw, false);
      emitted := SetCurrentValue(newValue);
    }

    /**
     * What `handleReset(resetToInitialValue)` leaves behind: the value set
     * back to the initial value only for an explicit `true`, and to the
     * empty text otherwise; errors and the formatted value cleared.
     */
    twostate predicate ResetApplied(resetToInitialValue: Option<bool>, new emitted: Option<ValueChange>)
      reads this`errors, this`valueFormatted, this`props, this`helpers, cell`internal, cell`controlled
    {
      var target := if resetToInitialValue == Some(true) then initialValue else "";
      && errors == [] && valueFormatted == ""
      && (cell.controlled.None? ==> cell.internal == target && emitted == None)
      && (cell.controlled.Some? ==>
            && cell.internal == old(cell.internal)
            && emitted == (if target != cell.controlled.value then Notification(target) else None))
    }

    /** `handleReset(resetToInitialValue)` */
    method HandleReset(resetToInitialValue: Option<bool>) returns (emitted: Option<ValueChange>)
      requires Valid()
      modifies this`errors, this`valueFormatted, cell`internal
      ensures Valid()
      ensures ResetApplied(resetToInitialValue, emitted)
    {
      var resetValue := if resetToInitialValue == Some(true) then initialValue else "";
      ErrorReduceClear(errors);
      errors := ErrorReduce(errors, ClearErrors);
      valueFormatted := "";
      emitted := SetCurrentValue(resetValue);
    }

    /** `handleAddError(key, message)` */
    method HandleAddError(key: string, message: string)
      requires Valid()
      modifies this`errors
      ensures Valid()
      ensures message != "" ==> Get(errors, key) == Some(message)
      ensures message == "" ==> errors == old(errors)
      ensures forall k :: k != key ==> Get(errors, k) == Get(old(errors), k)
    {
      ErrorReduceAdd(errors, key, message);
      errors := ErrorReduce(errors, AddError(key, message));
    }

    /** `displayValue`: the raw value while focused; otherwise the formatted value unless it is empty. */
    function DisplayValue(): (r: string)
      reads this`isFocused, this`valueFormatted, cell
      ensures r == cell.Value() || (r == valueFormatted && r != "")
      ensures isFocused || valueFormatted == "" ==> r == cell.Value()
      ensures !isFocused && valueFormatted != "" ==> r == valueFormatted
    {
      if isFocused then cell.Value() else if valueFormatted != "" then valueFormatted else cell.Value()
    }

    /** `handleFocus`: focused; a number input drops its formatted value, so the raw value shows. */
    method HandleFocus()
      modifies this`isFocused, this`valueFormatted
      ensures isFocused
      ensures valueFormatted == (if props.inputType == Number then "" else old(valueFormatted))
      ensures DisplayValue() == cell.Value()
    {
      isFocused := true;
      if props.inputType == Number {
        valueFormatted := "";
      }
    }

    /**
     * `handleBlur`: unfocused; a number input formats its value, which is
     * sanitised before the call and again inside it.
     */
    method HandleBlur()
      modifies this`isFocused, this`valueFormatted
      ensures !isFocused
      ensures props.inputType == Number && props.formatterActive ==>
        valueFormatted == helpers.format(helpers.sanitize(helpers.sanitize(cell.Value())))
      ensures props.inputType == Text || !props.formatterActive ==> valueFormatted == old(valueFormatted)
    {
      isFocused := false;
      if props.inputType == Number {
        var valueSanitize := helpers.sanitize(cell.Value());
        FormatValue(valueSanitize, true);
      }
    }

    /**
     * The write-back effect: a controlled value is re-processed, and only a
     * value that processing changed is written back, which reports it.
     */
    method ControlledWriteBackEffect() returns (emitted: Option<ValueChange>)
      requires Valid()
      modifies this`errors, this`valueFormatted, cell`internal
      ensures Valid()
      ensures cell.internal == old(cell.internal)
      ensures props.value.None? ==> emitted == None && errors == old(errors) && valueFormatted == old(valueFormatted)
      ensures props.value.Some? ==>
        var processed := ProcessedValue(props.value.value, true);
        && emitted == (if processed != props.value.value then Notification(processed) else None)
        && (props.inputType == Text ==> errors == old(errors) && valueFormatted == old(valueFormatted))
        && (props.inputType == Number ==> ErrorsChecked(old(errors), errors, NumberValidations(processed)))
        && (props.inputType == Number ==>
              valueFormatted == (if props.formatterActive then helpers.format(processed) else old(valueFormatted)))
    {
      if props.value.None? {
        return None;
      }
      var sanitizeValue := ProcessRawValue(props.value.value, true);
      if sanitizeValue != props.value.value {
        emitted := SetCurrentValue(sanitizeValue);
      } else {
        emitted := None;
      }
    }

    /** The reset effect: with the flag and its setter, the flag is cleared and the input reset. */
    method ResetEffect() returns (clearFlag: bool, emitted: Option<ValueChange>)
      requires Valid()
      modifies this`errors, this`valueFormatted, cell`internal
      ensures Valid()
      ensures clearFlag == (props.reset && props.hasSetReset)
      ensures clearFlag ==> ResetApplied(props.resetToInitialValue, emitted)
      ensures !clearFlag ==>
        errors == old(errors) && valueFormatted == old(valueFormatted) && cell.internal == old(cell.internal) && emitted == None
    {
      clearFlag := props.reset && props.hasSetReset;
      if clearFlag {
        emitted := HandleReset(props.resetToInitialValue);
      } else {
        emitted := None;
      }
    }

    /** A new render: the props and helpers are replaced and the cell sees the new value prop. */
    method Rerender(p: InputProps, h: InputHelpers)
      requires DistinctKeys(errors)
      modifies this`props, this`helpers, cell`controlled
      ensures Valid() && props == p && helpers == h
    {
      props := p;
      helpers := h;
      cell.Sync(p.value);
    }
  }
}

/**
 * The empty-state message (`AutocompleteMessages`): a placeholder that up
 * to three successive checks overwrite, with Spanish default texts.
 */
module AutocompleteMessages {
  import opened Wrappers
  import opened JsStrings
  import opened AutocompleteTypes
  import opened AutocompleteLists

  /** The message before any check applies. */
  const Placeholder := "????"
  const DefaultInitialText := "Escriba para mostrar sugerencias"
  const DefaultMinLengthText := "Escriba almenos {minLength} car\U{00E1}cteres"
  const DefaultNoResultText := "No existen sugerencias"
  /** The marker in the minimum-length text that the number replaces. */
  const MinLengthMarker := "{minLength}"

  /** The `messagesConfig` texts; `None` is an omitted prop. */
  datatype MessageTexts = MessageTexts(initialText: Option<string>, minLengthText: Option<string>, noResultText: Option<string>)

  /** The minimum-length text with its first marker replaced by the number. */
  function MinLengthMessage(texts: MessageTexts, minLengthRequired: int): string {
    ReplaceFirst(texts.minLengthText.GetOr(DefaultMinLengthText), MinLengthMarker, IntToString(minLengthRequired))
  }

  /**
   * The component's body: the placeholder, then the initial text for an
   * empty text and an empty map, the minimum-length text for a started
   * text that is too short, and the no-result text for a long enough text
   * with an empty map.
   */
  method Message(inputLength: nat, itemCount: nat, minLengthRequired: int, texts: MessageTexts) returns (message: string)
    ensures inputLength == 0 && itemCount == 0 ==> message == texts.initialText.GetOr(DefaultInitialText)
    ensures 0 < inputLength < minLengthRequired ==> message == MinLengthMessage(texts, minLengthRequired)
    ensures 0 < inputLength && minLengthRequired <= inputLength && itemCount == 0 ==>
      message == texts.noResultText.GetOr(DefaultNoResultText)
    ensures !NeedsMessage(inputLength, itemCount, minLengthRequired) ==> message == Placeholder
  {
    var initialText := texts.initialText.GetOr(DefaultInitialText);
    var minLengthText := texts.minLengthText.GetOr(DefaultMinLengthText);
    var noResultText := texts.noResultText.GetOr(DefaultNoResultText);
    message := Placeholder;
    if inputLength == 0 && itemCount == 0 {
      message := initialText;
    }
    if inputLength > 0 && inputLength < minLengthRequired {
      message := ReplaceFirst(minLengthText, MinLengthMarker, IntToString(minLengthRequired));
    }
    if inputLength > 0 && inputLength >= minLengthRequired && itemCount == 0 {
      message := noResultText;
    }
  }

  /** Whenever the list shows the message, one of the three texts replaced the placeholder. */
  method ShownMessage(s: AutocompleteState, minLengthRequired: int, texts: MessageTexts) returns (message: string)
    requires Flags(s, minLengthRequired).showMessages
    ensures message == texts.initialText.GetOr(DefaultInitialText)
         || message == MinLengthMessage(texts, minLengthRequired)
         || message == texts.noResultText.GetOr(DefaultNoResultText)
  {
    message := Message(|s.inputValue|, |s.filteredItems|, minLengthRequired, texts);
  }

  /** A marker preceded by text that cannot start it is the occurrence replaced. */
  lemma {:induction false} ReplaceFirstAfter(before: string, pattern: string, after: string, replacement: string)
    requires pattern != [] && forall j :: 0 <= j < |before| ==> before[j] != pattern[0]
    ensures ReplaceFirst(before + pattern + after, pattern, replacement) == before + replacement + after
    decreases |before|
  {
    var s := before + pattern + after;
    if before == [] {
      assert s == pattern + after;
      assert pattern <= s;
    } else {
      var rest := before[1..] + pattern + after;
      assert s[0] == before[0] != pattern[0];
      assert s[1..] == rest;
      assert !(pattern <= s);
      assert ReplaceFirst(s, pattern, replacement) == [s[0]] + ReplaceFirst(rest, pattern, replacement);
      ReplaceFirstAfter(before[1..], pattern, after, replacement);
      assert before == [before[0]] + before[1..];
    }
  }

  /** With the default text, the message reads "Escriba almenos N carácteres" with the number in place. */
  lemma DefaultMinLengthMessage(minLengthRequired: int)
    ensures MinLengthMessage(MessageTexts(None, None, None), minLengthRequired)
         == "Escriba almenos " + IntToString(minLengthRequired) + " car\U{00E1}cteres"
  {
    var before, after := "Escriba almenos ", " car\U{00E1}cteres";
    assert DefaultMinLengthText == before + MinLengthMarker + after;
    ReplaceFirstAfter(before, MinLengthMarker, after, IntToString(minLengthRequired));
  }
}

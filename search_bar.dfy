/**
 * The search bar's text field state: its text and prefix, the placeholder
 * and clear-button visibility derived from them, the activity indicator,
 * and the callbacks it fires. Text attributes are not modelled; a prefix is
 * its characters.
 */
module SearchBar {
  import opened Wrappers
  import opened Text

  /** A callback fired by the bar, in the order fired. */
  datatype SearchBarEvent = TextUpdated(text: string) | ClearPrefix

  /** The text as the bar reads it: a missing text reads as empty. */
  function TextOf(text: Option<string>): (r: string)
    ensures text.Some? ==> r == text.value
    ensures text.None? ==> r == []
  {
    text.GetOr([])
  }

  /**
   * The `updated` test of the `prefixString` setter: two present prefixes
   * differ when they are unequal, otherwise presence must differ. It is
   * exactly inequality.
   */
  function PrefixUpdated(previous: Option<string>, value: Option<string>): (r: bool)
    ensures r <==> previous != value
  {
    if previous.Some? && value.Some? then previous.value != value.value
    else previous.Some? != value.Some?
  }

  /** `textField(_:shouldChangeCharactersIn:replacementString:)`: a replacement is allowed exactly when it has no line break. */
  function ShouldChangeCharacters(replacement: string): (r: bool)
    ensures r <==> forall i :: 0 <= i < |replacement| ==> replacement[i] != '\n'
  {
    IndexOfSound(replacement, '\n', 0);
    IndexOf(replacement, '\n', 0).None?
  }

  class SearchBarNode {
    /** The text field's text and prefix. */
    var text: Option<string>
    var prefix: Option<string>
    var placeholderHidden: bool
    var clearButtonHidden: bool
    var activity: bool
    var hasActivityIndicator: bool
    var iconHidden: bool
    var firstResponder: bool
    /** Whether the `textUpdated` and `clearPrefix` callbacks are installed. */
    const hasTextUpdated: bool
    const hasClearPrefix: bool
    /** Every callback fired so far. */
    var events: seq<SearchBarEvent>

    predicate HasText()
      reads this
    {
      TextOf(text) != []
    }

    /** The activity indicator exists, and the search icon is hidden, exactly while there is activity. */
    predicate ActivityMatches()
      reads this
    {
      hasActivityIndicator == activity && iconHidden == activity
    }

    /** The placeholder shows exactly when there is no text, and the activity state is consistent. */
    predicate Valid()
      reads this
    {
      placeholderHidden == HasText() && ActivityMatches()
    }

    /** The clear button shows exactly when there is text or a prefix. */
    predicate ClearButtonMatches()
      reads this
    {
      clearButtonHidden == (!HasText() && prefix.None?)
    }

    constructor(hasTextUpdated: bool, hasClearPrefix: bool)
      ensures Valid() && ClearButtonMatches()
      ensures text == None && prefix == None && !placeholderHidden && clearButtonHidden
      ensures !activity && !firstResponder && events == []
      ensures this.hasTextUpdated == hasTextUpdated && this.hasClearPrefix == hasClearPrefix
    {
      text := None;
      prefix := None;
      placeholderHidden := false;
      clearButtonHidden := true;
      activity := false;
      hasActivityIndicator := false;
      iconHidden := false;
      firstResponder := false;
      this.hasTextUpdated := hasTextUpdated;
      this.hasClearPrefix := hasClearPrefix;
      events := [];
    }

    /** `updateIsEmpty`: the placeholder hides when there is text; the clear button hides when there is neither text nor prefix. */
    method UpdateIsEmpty()
      modifies this
      ensures placeholderHidden == HasText()
      ensures ClearButtonMatches()
      ensures text == old(text) && prefix == old(prefix) && events == old(events)
      ensures activity == old(activity) && hasActivityIndicator == old(hasActivityIndicator)
      ensures iconHidden == old(iconHidden) && firstResponder == old(firstResponder)
    {
      var isEmpty := !(if text.Some? then text.value == [] else true);
      if isEmpty != placeholderHidden {
        placeholderHidden := isEmpty;
      }
      clearButtonHidden := !isEmpty && prefix == None;
    }

    /** `textFieldDidChange`: refresh the visibility, then report the text when someone listens. */
    method TextFieldDidChange()
      requires ActivityMatches()
      modifies this
      ensures Valid() && ClearButtonMatches()
      ensures text == old(text) && prefix == old(prefix)
      ensures events == old(events) + (if hasTextUpdated then [TextUpdated(TextOf(text))] else [])
      ensures activity == old(activity) && firstResponder == old(firstResponder)
    {
      UpdateIsEmpty();
      if hasTextUpdated {
        events := events + [TextUpdated(TextOf(text))];
      }
    }

    /** The `text` setter: a value equal to the current text (missing reads as empty) changes nothing; otherwise it is stored and reported. */
    method SetText(value: string)
      requires Valid()
      modifies this
      ensures Valid()
      ensures old(ClearButtonMatches()) ==> ClearButtonMatches()
      ensures TextOf(old(text)) == value ==> unchanged(this)
      ensures TextOf(old(text)) != value ==>
        && text == Some(value)
        && ClearButtonMatches()
        && events == old(events) + (if hasTextUpdated then [TextUpdated(value)] else [])
      ensures prefix == old(prefix) && activity == old(activity) && firstResponder == old(firstResponder)
    {
      if TextOf(text) != value {
        text := Some(value);
        TextFieldDidChange();
      }
    }

    /** The `prefixString` setter: only a different prefix is stored, and then the visibility is refreshed. */
    method SetPrefix(value: Option<string>)
      requires Valid()
      modifies this
      ensures Valid()
      ensures old(ClearButtonMatches()) ==> ClearButtonMatches()
      ensures old(prefix) == value ==> unchanged(this)
      ensures old(prefix) != value ==> ClearButtonMatches()
      ensures prefix == value
      ensures text == old(text) && events == old(events)
      ensures activity == old(activity) && firstResponder == old(firstResponder)
    {
      var previous := prefix;
      var updated := PrefixUpdated(previous, value);
      if updated {
        prefix := value;
        UpdateIsEmpty();
      }
    }

    /** The `activity` observer: on a change, the indicator is created or removed and the search icon hidden or shown. */
    method SetActivity(value: bool)
      requires Valid()
      modifies this
      ensures Valid()
      ensures activity == value && hasActivityIndicator == value && iconHidden == value
      ensures text == old(text) && prefix == old(prefix) && events == old(events)
      ensures placeholderHidden == old(placeholderHidden) && clearButtonHidden == old(clearButtonHidden)
      ensures firstResponder == old(firstResponder)
    {
      var oldValue := activity;
      activity := value;
      if activity != oldValue {
        if activity {
          if !hasActivityIndicator {
            hasActivityIndicator := true;
          }
        } else if hasActivityIndicator {
          hasActivityIndicator := false;
        }
        iconHidden := activity;
      }
    }

    /**
     * `clearPressed`: with text, empty it and report the empty text; without
     * text, ask for the prefix to be cleared when there is one; otherwise
     * nothing happens.
     */
    method ClearPressed()
      requires Valid()
      modifies this
      ensures Valid()
      ensures old(ClearButtonMatches()) ==> ClearButtonMatches()
      ensures old(HasText()) ==>
        && text == Some([])
        && ClearButtonMatches()
        && events == old(events) + (if hasTextUpdated then [TextUpdated([])] else [])
      ensures !old(HasText()) && old(prefix).Some? ==>
        && text == old(text)
        && placeholderHidden == old(placeholderHidden) && clearButtonHidden == old(clearButtonHidden)
        && events == old(events) + (if hasClearPrefix then [ClearPrefix] else [])
      ensures !old(HasText()) && old(prefix).None? ==> unchanged(this)
      ensures prefix == old(prefix) && activity == old(activity) && firstResponder == old(firstResponder)
    {
      if !HasText() {
        if prefix != None {
          if hasClearPrefix {
            events := events + [ClearPrefix];
          }
        }
      } else {
        text := Some([]);
        TextFieldDidChange();
      }
    }

    /**
     * Delete-backward in the field: on an empty or missing text the clear
     * action runs first; a nonempty text then loses its last character and
     * the field reports the edit.
     */
    method DeleteBackward()
      requires Valid()
      modifies this
      ensures Valid()
      ensures old(ClearButtonMatches()) ==> ClearButtonMatches()
      ensures !old(HasText()) && old(prefix).Some? ==>
        && text == old(text)
        && placeholderHidden == old(placeholderHidden) && clearButtonHidden == old(clearButtonHidden)
        && events == old(events) + (if hasClearPrefix then [ClearPrefix] else [])
      ensures !old(HasText()) && old(prefix).None? ==> unchanged(this)
      ensures old(HasText()) ==>
        && text == Some(old(text).value[..|old(text).value| - 1])
        && ClearButtonMatches()
        && events == old(events) + (if hasTextUpdated then [TextUpdated(old(text).value[..|old(text).value| - 1])] else [])
      ensures prefix == old(prefix) && activity == old(activity) && firstResponder == old(firstResponder)
    {
      if text == None || text.value == [] {
        ClearPressed();
      }
      if HasText() {
        var t := text.value;
        text := Some(t[..|t| - 1]);
        TextFieldDidChange();
      }
    }

    /** `deactivate(clear:)`: give up focus, and when clearing, drop the text and show the placeholder; the clear button is left as it was. */
    method Deactivate(clear: bool)
      requires Valid()
      modifies this
      ensures Valid()
      ensures !firstResponder
      ensures clear ==> text == None && !placeholderHidden
      ensures !clear ==> text == old(text) && placeholderHidden == old(placeholderHidden)
      ensures clearButtonHidden == old(clearButtonHidden)
      ensures prefix == old(prefix) && events == old(events) && activity == old(activity)
    {
      firstResponder := false;
      if clear {
        text := None;
        placeholderHidden := false;
      }
    }
  }

  /**
   * After `deactivate(clear: true)` on a bar with text, the clear button is
   * still shown although there is neither text nor prefix, and pressing it
   * changes nothing; the next text set refreshes it.
   */
  method DeactivateLeavesClearButton() returns (text: Option<string>, prefix: Option<string>, clearButtonHidden: bool, restored: bool)
    ensures text == None && prefix == None && !clearButtonHidden
    ensures restored
  {
    var bar := new SearchBarNode(false, false);
    bar.SetText("a");
    bar.Deactivate(true);
    bar.ClearPressed();
    text, prefix, clearButtonHidden := bar.text, bar.prefix, bar.clearButtonHidden;
    bar.SetText("b");
    restored := bar.ClearButtonMatches();
  }
}

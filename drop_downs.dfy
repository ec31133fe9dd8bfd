/**
 * `validateDropDownSelectedOptions`: whether a `<select>` element has the
 * expected options selected, compared by their visible text.
 */
module DropDowns {
  import opened Wrappers
  import opened JavaText
  import opened Locators

  /** What the driver reports about the element the locator finds. */
  datatype DropDown = DropDown(tagName: string, typeAttribute: Option<string>, selectedTexts: seq<string>)

  /** The exceptions the check lets through. */
  datatype DropDownError =
    | NoSession       // the static `mDriver` is null, so `findElement` is called on null
    | NullLocator     // `getBy` answered null, and `findElement(null)` throws
    | NotFound        // `findElement` found no element
    | NoTypeAttribute // `getAttribute("type")` was null, so `contains` threw
    | NotASelect      // `new Select(...)` on an element whose tag is not `select`

  /** What `new Select(element)` accepts: a tag name that lower-cases to `select`. */
  predicate IsSelectTag(tagName: string) {
    LowerCase(tagName) == "select"
  }

  /**
   * The test the nested loops make once the sizes agree: every selected
   * option's text equals some expected entry once that entry is trimmed.
   */
  ghost predicate AllSelectedExpected(selected: seq<string>, expected: seq<string>) {
    forall i :: 0 <= i < |selected| ==> IsTrimmedEntry(selected[i], expected)
  }

  /** `text` equals some entry of `expected` once that entry is trimmed. */
  ghost predicate IsTrimmedEntry(text: string, expected: seq<string>) {
    exists j :: 0 <= j < |expected| && text == Trim(expected[j])
  }

  /** The whole verdict on a drop-down whose `type` attribute is `typeAttribute`. */
  ghost predicate SelectionMatches(typeAttribute: string, selected: seq<string>, expected: seq<string>) {
    Contains(typeAttribute, "select") && |selected| == |expected| && AllSelectedExpected(selected, expected)
  }

  /** The inner loop: whether `text` equals some trimmed entry of `expected`. */
  method IsExpected(text: string, expected: seq<string>) returns (optionExpected: bool)
    ensures optionExpected <==> IsTrimmedEntry(text, expected)
  {
    optionExpected := false;
    var j := 0;
    while j < |expected|
      invariant 0 <= j <= |expected|
      invariant forall m :: 0 <= m < j ==> text != Trim(expected[m])
    {
      var anExpectedOption := Trim(expected[j]);
      if text == anExpectedOption {
        optionExpected := true;
        break;
      }
      j := j + 1;
    }
  }

  /** The size check and the outer loop, over the texts of the selected options. */
  method SelectedOptionsExpected(selected: seq<string>, expected: seq<string>) returns (result: bool)
    ensures result <==> |selected| == |expected| && AllSelectedExpected(selected, expected)
  {
    result := false;
    if |selected| == |expected| {
      var expectedOptionsSelected := true;
      var i := 0;
      while i < |selected|
        invariant 0 <= i <= |selected|
        invariant expectedOptionsSelected
        invariant forall m :: 0 <= m < i ==> IsTrimmedEntry(selected[m], expected)
      {
        var optionExpected := IsExpected(selected[i], expected);
        if !optionExpected {
          expectedOptionsSelected := false;
          break;
        }
        i := i + 1;
      }
      result := expectedOptionsSelected;
    }
  }

  /**
   * `validateDropDownSelectedOptions(pDropDown, expected)`. `session` says
   * whether `mDriver` holds a browser, and `find` is what `findElement`
   * returns for a locator (`None` when it finds no element).
   */
  method ValidateDropDownSelectedOptions(session: bool, pDropDown: string, find: Locator -> Option<DropDown>,
                                         expected: seq<string>)
    returns (r: Result<bool, DropDownError>)
    ensures !session ==> r == Failure(NoSession)
    ensures session && GetBy(pDropDown).None? ==> r == Failure(NullLocator)
    ensures session && GetBy(pDropDown).Some? ==>
      var found := find(GetBy(pDropDown).value);
      (found.None? ==> r == Failure(NotFound))
      && (found.Some? && found.value.typeAttribute.None? ==> r == Failure(NoTypeAttribute))
      && (found.Some? && found.value.typeAttribute.Some? && !Contains(found.value.typeAttribute.value, "select") ==>
            r == Success(false))
      && (found.Some? && found.value.typeAttribute.Some? && Contains(found.value.typeAttribute.value, "select") ==>
            r == if IsSelectTag(found.value.tagName)
                 then Success(SelectionMatches(found.value.typeAttribute.value, found.value.selectedTexts, expected))
                 else Failure(NotASelect))
  {
    if !session {
      return Failure(NoSession);
    }
    var locator := GetBy(pDropDown);
    if locator.None? {
      return Failure(NullLocator);
    }
    var dropDown := find(locator.value);
    if dropDown.None? {
      return Failure(NotFound);
    }
    if dropDown.value.typeAttribute.None? {
      return Failure(NoTypeAttribute);
    }
    var result := false;
    if Contains(dropDown.value.typeAttribute.value, "select") {
      if !IsSelectTag(dropDown.value.tagName) {
        return Failure(NotASelect);
      }
      result := SelectedOptionsExpected(dropDown.value.selectedTexts, expected);
    }
    return Success(result);
  }

  /** The trimmed expected texts. */
  ghost function TrimmedTexts(expected: seq<string>): set<string> {
    set y | y in expected :: Trim(y)
  }

  lemma ContainmentSufficient(selected: seq<string>, expected: seq<string>)
    requires (set x | x in selected) <= TrimmedTexts(expected)
    ensures AllSelectedExpected(selected, expected)
  {
    forall i | 0 <= i < |selected|
      ensures IsTrimmedEntry(selected[i], expected)
    {
      assert selected[i] in TrimmedTexts(expected);
      var y :| y in expected && selected[i] == Trim(y);
      var j :| 0 <= j < |expected| && expected[j] == y;
    }
  }

  lemma ContainmentNecessary(selected: seq<string>, expected: seq<string>)
    requires AllSelectedExpected(selected, expected)
    ensures (set x | x in selected) <= TrimmedTexts(expected)
  {
    forall x | x in selected
      ensures x in TrimmedTexts(expected)
    {
      var i :| 0 <= i < |selected| && selected[i] == x;
      assert IsTrimmedEntry(selected[i], expected);
      var j :| 0 <= j < |expected| && selected[i] == Trim(expected[j]);
      assert expected[j] in expected;
    }
  }

  /** The check is a containment: the selected texts lie within the trimmed expected ones. */
  lemma AllSelectedExpectedIsContainment(selected: seq<string>, expected: seq<string>)
    ensures AllSelectedExpected(selected, expected) <==> (set x | x in selected) <= TrimmedTexts(expected)
  {
    if (set x | x in selected) <= TrimmedTexts(expected) {
      ContainmentSufficient(selected, expected);
    }
    if AllSelectedExpected(selected, expected) {
      ContainmentNecessary(selected, expected);
    }
  }

  /** Selecting trimmed expected entries, each chosen by any map into the expected list, passes when the count is right. */
  lemma ReorderedSelectionAccepted(typeAttribute: string, selected: seq<string>, expected: seq<string>, order: nat -> nat)
    requires Contains(typeAttribute, "select") && |selected| == |expected|
    requires forall i :: 0 <= i < |selected| ==> order(i) < |expected| && selected[i] == Trim(expected[order(i)])
    ensures SelectionMatches(typeAttribute, selected, expected)
  {
    forall i | 0 <= i < |selected|
      ensures IsTrimmedEntry(selected[i], expected)
    {
      assert selected[i] == Trim(expected[order(i)]);
    }
  }

  /**
   * The reverse direction is not checked: selecting one expected option twice
   * passes although another expected option is not selected at all.
   */
  lemma DuplicateSelectionAccepted(typeAttribute: string, a: string, b: string)
    requires Contains(typeAttribute, "select")
    requires Trim(a) == a && Trim(b) != a
    ensures SelectionMatches(typeAttribute, [a, a], [a, b])
    ensures b !in [a, a] && Trim(b) !in [a, a]
  {
    forall i | 0 <= i < 2
      ensures IsTrimmedEntry([a, a][i], [a, b])
    {
      assert [a, a][i] == Trim([a, b][0]);
    }
  }

  /** A selection of a different size never passes, whatever the texts. */
  lemma WrongCountRejected(typeAttribute: string, selected: seq<string>, expected: seq<string>)
    requires |selected| != |expected|
    ensures !SelectionMatches(typeAttribute, selected, expected)
  {
  }
}

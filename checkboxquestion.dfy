/** The multiple-answer question (src/components/activities/CheckboxQuestion.jsx):
    what a click on an option hands back to the page, and how each option and the
    whole card are shaded before and after the sheet is graded. */
module CheckboxQuestion {
  import opened Common
  import opened Activities

  /** `handleToggle(i)`: once the result is shown a click does nothing (`None`,
      `onChange` is not called); otherwise the page receives the selection with
      `i` removed, every occurrence of it, when it was selected, or appended at
      the end when it was not. */
  function HandleToggle(value: seq<int>, i: int, showResult: bool): (r: Option<seq<int>>)
    ensures showResult <==> r.None?
    ensures r.Some? && i in value ==> i !in r.value && forall y :: y != i ==> (y in r.value <==> y in value)
    ensures r.Some? && i !in value ==> r.value == value + [i]
  {
    if showResult then None else Some(Toggle(value, i))
  }

  /** Two clicks on the same option, before the result is shown, give back the
      same set of selected options, and the very same list when the option was
      not selected. */
  lemma ToggleTwiceRestores(value: seq<int>, i: int)
    ensures HandleToggle(value, i, false).Some?
    ensures var once := HandleToggle(value, i, false).value;
      forall y :: y in HandleToggle(once, i, false).value <==> y in value
    ensures i !in value ==> HandleToggle(HandleToggle(value, i, false).value, i, false).value == value
  {
    ToggleTwice(value, i);
  }

  /** `result?.correctAnswer?.indices?.includes(i)`: the option is one of the
      stored solution's indices; without a result, or without a list of
      indices, no option is. */
  predicate IsCorrectOption(result: Option<ItemResult>, i: int)
  {
    result.Some? && result.value.correctAnswer.indices.Arr? && i in result.value.correctAnswer.indices.items
  }

  /** The four looks of an option: plain, selected (blue), right (green) and
      wrong (red). */
  datatype Shade = Plain | Selected | Right | Wrong

  /** The look of option `i`. Before the result: blue when selected. After it:
      green for a correct option whether selected or not, red for a selected
      incorrect one, plain otherwise. */
  function OptionShade(value: seq<int>, i: int, showResult: bool, result: Option<ItemResult>): (s: Shade)
    ensures s == Selected <==> !showResult && i in value
    ensures s == Right <==> showResult && IsCorrectOption(result, i)
    ensures s == Wrong <==> showResult && i in value && !IsCorrectOption(result, i)
  {
    var isSelected := i in value;
    var isCorrect := IsCorrectOption(result, i);
    if showResult then
      if isCorrect then Right
      else if isSelected then Wrong
      else Plain
    else if isSelected then Selected
    else Plain
  }

  /** After grading, exactly the options of a right answer sheet are green and
      none is red: when the selection holds the same indices as the solution,
      every option shows whether it belongs to the solution. */
  lemma ExactSelectionHasNoRed(value: seq<int>, result: Option<ItemResult>, i: int)
    requires result.Some? && result.value.correctAnswer.indices.Arr?
    requires forall y :: y in value <==> y in result.value.correctAnswer.indices.items
    ensures OptionShade(value, i, true, result) != Wrong
    ensures OptionShade(value, i, true, result) == Right <==> i in value
  {
  }

  /** The card's background: white before the result, then green or red as
      the answer was graded. */
  function CardShade(showResult: bool, result: Option<ItemResult>): (s: Shade)
    ensures !showResult ==> s == Plain
    ensures showResult ==> (s == Right <==> result.Some? && result.value.isCorrect)
    ensures showResult ==> s != Plain && s != Selected
  {
    if !showResult then Plain
    else if result.Some? && result.value.isCorrect then Right
    else Wrong
  }
}

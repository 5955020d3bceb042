/** The fill-in-the-blank question (src/components/activities/FillBlankQuestion.jsx):
    how the question text is cut at its blank, what the blank shows, and which
    parts of the card appear before and after the sheet is graded. */
module FillBlankQuestion {
  import opened Common
  import opened Activities

  /** The blank marker of a question text. */
  const Blank := "___"

  /** What the blank shows while it is empty. */
  const Placeholder := "______"

  /** `renderPergunta`: the text unchanged, or the text before the blank, the
      blank and the text after it. */
  datatype Rendered = Unchanged(text: string) | WithBlank(before: string, blank: string, after: string)

  /** `value || '______'` */
  function BlankShows(value: string): (r: string)
    ensures r != []
    ensures value != [] ==> r == value
  {
    if value == [] then Placeholder else value
  }

  /** `renderPergunta()`: the question split at `___`; with fewer than two
      pieces the text is shown as it is, otherwise the first piece, the blank
      and the second piece. */
  function RenderPergunta(pergunta: string, value: string): (r: Rendered)
    ensures r.Unchanged? <==> forall i :: !OccursAt(pergunta, Blank, i)
    ensures r.Unchanged? ==> r.text == pergunta
    ensures r.WithBlank? ==> r.blank == BlankShows(value)
  {
    var parts := SplitStr(pergunta, Blank);
    SplitOnePieceIff(pergunta, Blank);
    if |parts| < 2 then Unchanged(pergunta)
    else WithBlank(parts[0], BlankShows(value), parts[1])
  }

  /** A question with one blank shows all of its text around the blank. */
  lemma OneBlankShowsAll(pergunta: string, value: string, i: nat)
    requires OccursAt(pergunta, Blank, i)
    requires forall j :: j != i ==> !OccursAt(pergunta, Blank, j)
    ensures RenderPergunta(pergunta, value) == WithBlank(pergunta[..i], BlankShows(value), pergunta[i + |Blank|..])
  {
    var rest := pergunta[i + |Blank|..];
    SplitAtFirst(pergunta, Blank, i);
    forall j ensures !OccursAt(rest, Blank, j) {
      if 0 <= j && j + |Blank| <= |rest| {
        assert rest[j..j + |Blank|] == pergunta[i + |Blank| + j..i + |Blank| + j + |Blank|];
        assert !OccursAt(pergunta, Blank, i + |Blank| + j);
      }
    }
    SplitOnePieceIff(rest, Blank);
  }

  /** The text shown before the blank is everything before the first `___`,
      even where blanks overlap; with no `___` starting after the first one
      ends, all the rest is shown after it. */
  lemma FirstBlankCut(pergunta: string, value: string, i: nat)
    requires OccursAt(pergunta, Blank, i)
    requires forall j :: 0 <= j < i ==> !OccursAt(pergunta, Blank, j)
    ensures var r := RenderPergunta(pergunta, value);
      && r.WithBlank? && r.before == pergunta[..i] && r.blank == BlankShows(value)
    ensures (forall j :: j >= i + |Blank| ==> !OccursAt(pergunta, Blank, j)) ==>
      RenderPergunta(pergunta, value).after == pergunta[i + |Blank|..]
  {
    var rest := pergunta[i + |Blank|..];
    SplitAtFirst(pergunta, Blank, i);
    if forall j :: j >= i + |Blank| ==> !OccursAt(pergunta, Blank, j) {
      forall j ensures !OccursAt(rest, Blank, j) {
        if 0 <= j && j + |Blank| <= |rest| {
          assert rest[j..j + |Blank|] == pergunta[i + |Blank| + j..i + |Blank| + j + |Blank|];
          assert !OccursAt(pergunta, Blank, i + |Blank| + j);
        }
      }
      SplitOnePieceIff(rest, Blank);
    }
  }

  /** Only the first blank is filled in: with a second blank at `k`, the text
      shown after the blank stops there, and everything from the second blank
      on is dropped. */
  lemma SecondBlankDropsRest(pergunta: string, value: string, i: nat, k: nat)
    requires OccursAt(pergunta, Blank, i) && OccursAt(pergunta, Blank, k) && i + |Blank| <= k
    requires forall j :: 0 <= j < i ==> !OccursAt(pergunta, Blank, j)
    requires forall j :: i + |Blank| <= j < k ==> !OccursAt(pergunta, Blank, j)
    ensures RenderPergunta(pergunta, value) == WithBlank(pergunta[..i], BlankShows(value), pergunta[i + |Blank|..k])
  {
    SplitFirstTwo(pergunta, Blank, i, k);
  }

  /** What the card shows besides the question. */
  datatype Card = Card(
    /** The stored answer, shown after a wrong answer. */
    correctAnswer: Option<string>,
    /** The option buttons, each with whether it is the current value. */
    options: seq<(string, bool)>,
    /** Whether the text field is shown. */
    textInput: bool)

  /** The card below the question. After grading, a wrong answer shows the
      stored answer (`result?.correctAnswer?.valor`) and nothing can be
      changed; before it, the options of `activity.dados?.opcoes || []` are
      offered, the one equal to the value highlighted, and the text field is
      shown. */
  function CardView(value: string, opcoes: Option<seq<string>>, showResult: bool, result: Option<ItemResult>): (c: Card)
    ensures c.correctAnswer.Some? <==> showResult && !(result.Some? && result.value.isCorrect)
    ensures c.correctAnswer.Some? && result.Some? ==> c.correctAnswer.value == TextOrEmpty(result.value.correctAnswer.valor)
    ensures c.textInput <==> !showResult
    ensures |c.options| > 0 <==> !showResult && opcoes.Some? && |opcoes.value| > 0
    ensures c.options != [] ==> |c.options| == |opcoes.value|
    ensures c.options != [] ==> forall j :: 0 <= j < |c.options| ==> c.options[j] == (opcoes.value[j], opcoes.value[j] == value)
  {
    var options := OrElse(opcoes, []);
    var correctAnswer :=
      if showResult && !(result.Some? && result.value.isCorrect) then
        Some(if result.Some? then TextOrEmpty(result.value.correctAnswer.valor) else [])
      else None;
    var buttons := if showResult then [] else Buttons(options, value);
    Card(correctAnswer, buttons, !showResult)
  }

  /** One button per option, in order, marked when it equals the value. */
  function Buttons(options: seq<string>, value: string): (r: seq<(string, bool)>)
    ensures |r| == |options|
    ensures forall j :: 0 <= j < |r| ==> r[j] == (options[j], options[j] == value)
  {
    if options == [] then [] else [(options[0], options[0] == value)] + Buttons(options[1..], value)
  }

  /** A click on option `k` makes it the value: afterwards its button, and
      exactly the buttons with the same text, are highlighted. */
  lemma ChosenOptionHighlighted(opcoes: seq<string>, k: nat, result: Option<ItemResult>)
    requires k < |opcoes|
    ensures var c := CardView(opcoes[k], Some(opcoes), false, result);
      && c.options[k].1
      && forall j :: 0 <= j < |opcoes| ==> (c.options[j].1 <==> opcoes[j] == opcoes[k])
  {
  }
}

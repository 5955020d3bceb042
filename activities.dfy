/** The answer checker of a lesson's activity sheet (`validateAnswers` in
    src/hooks/useActivities.js): every activity is graded against the learner's
    answer at the same position, the correct ones are counted, and the sheet passes
    at 70 percent. */
module Activities {
  import opened Common

  /** The stored solution of an activity: an option index for a quiz, a list of
      option indices for a checkbox question, a text for a fill-in-the-blank. */
  datatype Solution = Solution(indice: Value, indices: Value, valor: Value)

  datatype Activity = Activity(id: int, tipo: string, respostaCorreta: Solution)

  /** One entry of the per-activity report. */
  datatype ItemResult = ItemResult(activityId: int, isCorrect: bool, userAnswer: Value, correctAnswer: Solution)

  datatype Validation = Validation(correct: nat, total: nat, percentage: real, passed: bool, results: seq<ItemResult>)

  /** The answers are an object keyed by question index; a missing key reads as
      `undefined`. */
  type Answers = map<int, Value>

  function AnswerAt(answers: Answers, i: int): Value
  {
    if i in answers then answers[i] else Undefined
  }

  function IdKey(x: int): int { x }

  /** The sorted copy both sides of a checkbox comparison are brought to. */
  function SortedIndices(xs: seq<int>): seq<int>
  {
    SortBy(xs, IdKey)
  }

  /** The normalised text of a fill-in-the-blank comparison. */
  function BlankText(v: Value): string
  {
    ToLower(Trim(TextOrEmpty(v)))
  }

  /** Whether `answer` solves `a`; a type the answer checker does not know is never solved. */
  predicate IsCorrect(a: Activity, answer: Value)
    ensures a.tipo == "quiz" ==> (IsCorrect(a, answer) <==> answer == a.respostaCorreta.indice && !answer.Arr?)
    ensures a.tipo == "checkbox" && IsCorrect(a, answer) ==> answer.Arr? && a.respostaCorreta.indices.Arr?
    ensures a.tipo !in {"quiz", "checkbox", "fill_blank"} ==> !IsCorrect(a, answer)
  {
    StrictEqualsIff(answer, a.respostaCorreta.indice);
    if a.tipo == "quiz" then
      StrictEquals(answer, a.respostaCorreta.indice)
    else if a.tipo == "checkbox" then
      answer.Arr? && a.respostaCorreta.indices.Arr?
      && SortedIndices(answer.items) == SortedIndices(a.respostaCorreta.indices.items)
    else if a.tipo == "fill_blank" then
      BlankText(answer) == BlankText(a.respostaCorreta.valor)
    else
      false
  }

  function ItemFor(acts: seq<Activity>, answers: Answers, i: nat): ItemResult
    requires i < |acts|
  {
    var answer := AnswerAt(answers, i);
    ItemResult(acts[i].id, IsCorrect(acts[i], answer), answer, acts[i].respostaCorreta)
  }

  predicate ItemCorrect(r: ItemResult) { r.isCorrect }

  function Percentage(correct: nat, total: nat): real
  {
    if total > 0 then correct as real / total as real * 100.0 else 0.0
  }

  /** The report `validateAnswers` returns, stated without its loop. */
  function Grade(acts: seq<Activity>, answers: Answers): (v: Validation)
    ensures v.total == |acts| == |v.results|
    ensures forall i :: 0 <= i < |acts| ==> v.results[i].activityId == acts[i].id
    ensures v.correct <= v.total
    ensures v.passed ==> v.total > 0
  {
    var results := seq(|acts|, i requires 0 <= i < |acts| => ItemFor(acts, answers, i));
    var correct := Count(results, ItemCorrect);
    CountBound(results, ItemCorrect);
    var percentage := Percentage(correct, |acts|);
    Validation(correct, |acts|, percentage, percentage >= 70.0, results)
  }

  /** `validateAnswers`: one pass over the activities, counting and reporting. */
  method ValidateAnswers(acts: seq<Activity>, answers: Answers) returns (v: Validation)
    ensures v == Grade(acts, answers)
  {
    var correct: nat := 0;
    var results: seq<ItemResult> := [];
    var i := 0;
    while i < |acts|
      invariant 0 <= i <= |acts|
      invariant |results| == i
      invariant forall k :: 0 <= k < i ==> results[k] == ItemFor(acts, answers, k)
      invariant correct == Count(results, ItemCorrect)
    {
      var answer := AnswerAt(answers, i);
      var ok := IsCorrect(acts[i], answer);
      if ok {
        correct := correct + 1;
      }
      var item := ItemResult(acts[i].id, ok, answer, acts[i].respostaCorreta);
      CountSnoc(results, item, ItemCorrect);
      results := results + [item];
      i := i + 1;
    }
    assert results == Grade(acts, answers).results;
    var total := |acts|;
    var percentage := Percentage(correct, total);
    v := Validation(correct, total, percentage, percentage >= 70.0, results);
  }

  // ---------------------------------------------------------------------------
  // Properties of the report

  lemma {:induction false} CountBound<T>(s: seq<T>, p: T -> bool)
    ensures Count(s, p) <= |s|
  {
    if s != [] {
      CountBound(s[..|s| - 1], p);
    }
  }

  /** One report entry per activity, in order, with the activity's id and the
      answer given at its position; `correct` counts the correct entries and never
      exceeds `total`. */
  lemma GradeShape(acts: seq<Activity>, answers: Answers)
    ensures var v := Grade(acts, answers);
      && v.total == |acts| == |v.results|
      && (forall i :: 0 <= i < |acts| ==>
            v.results[i].activityId == acts[i].id
            && v.results[i].userAnswer == AnswerAt(answers, i)
            && v.results[i].isCorrect == IsCorrect(acts[i], AnswerAt(answers, i)))
      && v.correct == |Filter(v.results, ItemCorrect)|
      && 0 <= v.correct <= v.total
  {
    var v := Grade(acts, answers);
    CountBound(v.results, ItemCorrect);
    CountIsFilterLength(v.results, ItemCorrect);
  }

  lemma ScaledThreshold(c: real, t: real)
    requires t > 0.0 && c >= 0.0
    ensures c / t * 100.0 >= 70.0 <==> 100.0 * c >= 70.0 * t
  {
    var x := c / t;
    assert x * t == c;
    if x * 100.0 >= 70.0 {
      assert (x * 100.0) * t >= 70.0 * t;
    }
    if x * 100.0 < 70.0 {
      assert (x * 100.0) * t < 70.0 * t;
    }
  }

  /** The percentage threshold restated in whole numbers. */
  lemma {:induction false} PercentageThreshold(correct: nat, total: nat)
    requires total > 0
    ensures Percentage(correct, total) >= 70.0 <==> 100 * correct >= 70 * total
  {
    ScaledThreshold(correct as real, total as real);
  }

  /** The pass mark in whole numbers: at least 70 percent, and never with no
      activities. */
  lemma PassedIff(acts: seq<Activity>, answers: Answers)
    ensures var v := Grade(acts, answers);
      v.passed <==> v.total > 0 && 100 * v.correct >= 70 * v.total
  {
    var v := Grade(acts, answers);
    if v.total > 0 {
      PercentageThreshold(v.correct, v.total);
    }
  }

  /** With no activities nothing is correct, the percentage is 0 and the sheet
      fails. */
  lemma EmptySheetFails(answers: Answers)
    ensures var v := Grade([], answers);
      v.total == 0 && v.correct == 0 && v.percentage == 0.0 && !v.passed
  {
  }

  /** A quiz answer is correct exactly when it is the same primitive value as the
      stored index; an array never is. */
  lemma QuizCorrectIff(a: Activity, answer: Value)
    requires a.tipo == "quiz"
    ensures IsCorrect(a, answer) <==> answer == a.respostaCorreta.indice && !answer.Arr?
  {
    StrictEqualsIff(answer, a.respostaCorreta.indice);
  }

  /** Two ascending lists of integers with the same elements are equal. */
  lemma {:induction false} SortedUnique(a: seq<int>, b: seq<int>)
    requires SortedBy(a, IdKey) && SortedBy(b, IdKey)
    requires multiset(a) == multiset(b)
    ensures a == b
    decreases |a|
  {
    if a != [] {
      SortedSameHead(a, b);
      MultisetTail(a);
      MultisetTail(b);
      assert multiset(a[1..]) == multiset(b[1..]);
      SortedTail(a, IdKey);
      SortedTail(b, IdKey);
      SortedUnique(a[1..], b[1..]);
      assert a == [a[0]] + a[1..];
      assert b == [b[0]] + b[1..];
    }
  }

  /** Two ascending lists with the same elements start with the same one. */
  lemma SortedSameHead(a: seq<int>, b: seq<int>)
    requires SortedBy(a, IdKey) && SortedBy(b, IdKey)
    requires multiset(a) == multiset(b) && a != []
    ensures b != [] && a[0] == b[0]
  {
    assert |b| == |a| by { assert |multiset(b)| == |multiset(a)|; }
    assert b[0] in multiset(a) by { assert b[0] in multiset(b); }
    assert a[0] in multiset(b) by { assert a[0] in multiset(a); }
    SortedHeadIsMin(a, IdKey, b[0]);
    SortedHeadIsMin(b, IdKey, a[0]);
  }

  /** A checkbox answer is correct exactly when it and the stored list are arrays
      holding the same indices the same number of times, in any order. */
  lemma CheckboxCorrectIff(a: Activity, answer: Value)
    requires a.tipo == "checkbox"
    ensures IsCorrect(a, answer) <==>
      answer.Arr? && a.respostaCorreta.indices.Arr?
      && multiset(answer.items) == multiset(a.respostaCorreta.indices.items)
  {
    if answer.Arr? && a.respostaCorreta.indices.Arr? {
      var u := answer.items;
      var c := a.respostaCorreta.indices.items;
      if multiset(u) == multiset(c) {
        SortedUnique(SortedIndices(u), SortedIndices(c));
      }
      if SortedIndices(u) == SortedIndices(c) {
        assert multiset(u) == multiset(SortedIndices(u));
      }
    }
  }

  lemma TextOfString(x: string)
    ensures TextOrEmpty(Str(x)) == x
  {
  }

  /** Blank text ignores white space around the answer. */
  lemma BlankTextPadding(p: string, s: string, q: string)
    requires AllSpace(p) && AllSpace(q)
    ensures BlankText(Str(p + s + q)) == BlankText(Str(s))
  {
    TextOfString(p + s + q);
    TextOfString(s);
    TrimPadding(p, s, q);
  }

  /** Blank text ignores the letter case of the answer. */
  lemma BlankTextCase(s: string)
    ensures BlankText(Str(ToLower(s))) == BlankText(Str(s))
  {
    TextOfString(ToLower(s));
    TextOfString(s);
    TrimToLower(s);
    ToLowerIdempotent(Trim(s));
  }

  /** A fill-in-the-blank answer ignores white space around it and letter case. */
  lemma FillBlankIgnoresPaddingAndCase(a: Activity, p: string, s: string, q: string)
    requires a.tipo == "fill_blank"
    requires AllSpace(p) && AllSpace(q)
    ensures IsCorrect(a, Str(p + s + q)) <==> IsCorrect(a, Str(s))
    ensures IsCorrect(a, Str(ToLower(s))) <==> IsCorrect(a, Str(s))
  {
    FillBlankCorrect(a, Str(p + s + q));
    FillBlankCorrect(a, Str(s));
    FillBlankCorrect(a, Str(ToLower(s)));
    BlankTextPadding(p, s, q);
    BlankTextCase(s);
  }

  /** A fill-in-the-blank answer is judged by its normalised text alone. */
  lemma FillBlankCorrect(a: Activity, answer: Value)
    requires a.tipo == "fill_blank"
    ensures IsCorrect(a, answer) <==> BlankText(answer) == BlankText(a.respostaCorreta.valor)
  {
    assert a.tipo != "quiz" && a.tipo != "checkbox";
  }

  /** An unanswered fill-in-the-blank counts as the empty text, so it is correct
      exactly when the stored text is blank. */
  lemma UnansweredBlank(a: Activity)
    requires a.tipo == "fill_blank"
    ensures IsCorrect(a, Undefined) <==> BlankText(a.respostaCorreta.valor) == []
  {
  }

  /** An activity of any other type is never correct. */
  lemma UnknownTypeIncorrect(a: Activity, answer: Value)
    requires a.tipo != "quiz" && a.tipo != "checkbox" && a.tipo != "fill_blank"
    ensures !IsCorrect(a, answer)
  {
  }
}

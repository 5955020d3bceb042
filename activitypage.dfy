/** The activity screen of a lesson (src/pages/ActivityPage.jsx): answering the
    questions one by one, submitting the sheet, and on a first pass recording the
    completion and awarding one fragment of the lesson's guardian. */
module ActivityPage {
  import opened Common
  import opened Fragments
  import opened Lessons
  import opened Activities

  // ---------------------------------------------------------------------------
  // Answers

  /** `hasAnswered`: an answer counts once it is neither `undefined`, `null`, the
      empty text nor the empty list. */
  predicate HasAnswered(v: Value)
    ensures v.Num? || v.Bool? ==> HasAnswered(v)
    ensures v.Str? ==> (HasAnswered(v) <==> v.s != "")
    ensures v.Arr? ==> (HasAnswered(v) <==> v.items != [])
    ensures v.Undefined? || v.Null? ==> !HasAnswered(v)
  {
    !(v == Undefined || v == Null || v == Str("") || v == Arr([]))
  }

  /** The "Finalizar" button only asks for a defined answer. */
  predicate CanFinish(v: Value)
    ensures HasAnswered(v) ==> CanFinish(v)
  {
    v != Undefined
  }

  /** Every answer that lets the learner go on also lets them finish, but an empty
      checkbox selection (or a `null`) finishes without counting as answered; the
      first option of a quiz, index 0, counts as answered. */
  lemma FinishWeakerThanNext(v: Value)
    ensures HasAnswered(v) ==> CanFinish(v)
    ensures CanFinish(Arr([])) && !HasAnswered(Arr([]))
    ensures CanFinish(Null) && !HasAnswered(Null)
    ensures HasAnswered(Num(0)) && !Truthy(Num(0))
  {
  }

  /** The indices a checkbox answer holds (`answers[q] || []`). */
  function Selection(v: Value): (xs: seq<int>)
    ensures v.Arr? ==> xs == v.items
    ensures !Truthy(v) ==> xs == []
  {
    if v.Arr? then v.items else []
  }

  /** The value a click on checkbox option `idx` stores. */
  function ToggleCheckbox(v: Value, idx: int): (r: Value)
    ensures r.Arr?
    ensures idx in Selection(v) ==> idx !in r.items && forall y :: y != idx ==> (y in r.items <==> y in Selection(v))
    ensures idx !in Selection(v) ==> r.items == Selection(v) + [idx]
  {
    Arr(Toggle(Selection(v), idx))
  }

  /** Two clicks on the same option give back the same selection. */
  lemma ToggleCheckboxTwice(v: Value, idx: int)
    ensures forall y :: y in ToggleCheckbox(ToggleCheckbox(v, idx), idx).items <==> y in Selection(v)
  {
    ToggleTwice(Selection(v), idx);
  }

  // ---------------------------------------------------------------------------
  // getFragmentInfo

  const FragmentKeys: seq<string> := ["português", "matemática", "natureza", "humanas"]
  const FragmentNames: seq<string> := ["do Ar", "do Fogo", "da Água", "da Terra"]
  const FragmentEmojis: seq<string> := ["💨", "🔥", "💧", "🌍"]

  /** The first area key the lower-cased area contains. */
  function FragmentKey(area: Option<string>): (k: Option<nat>)
    ensures k.Some? ==> area.Some? && k.value < |FragmentKeys| && Includes(ToLower(area.value), FragmentKeys[k.value])
    ensures k.Some? ==> forall j :: 0 <= j < k.value ==> !Includes(ToLower(area.value), FragmentKeys[j])
    ensures k.None? <==> area.None? || forall j :: 0 <= j < |FragmentKeys| ==> !Includes(ToLower(area.value), FragmentKeys[j])
  {
    if area.None? then None
    else FindIndex(FragmentKeys, k => Includes(ToLower(area.value), k))
  }

  /** `getFragmentInfo(area)`: the fragment's name and emoji for the area, the
      mystic one when no key matches. */
  function GetFragmentInfo(area: Option<string>): (info: (string, string))
    ensures FragmentKey(area).None? ==> info == ("Místico", "✨")
    ensures FragmentKey(area).Some? ==> info == (FragmentNames[FragmentKey(area).value], FragmentEmojis[FragmentKey(area).value])
  {
    match FragmentKey(area)
    case Some(k) => (FragmentNames[k], FragmentEmojis[k])
    case None => ("Místico", "✨")
  }

  /** The lookup ignores letter case: an area and its lower-cased form give the
      same fragment. */
  lemma FragmentInfoIgnoresCase(area: string)
    ensures GetFragmentInfo(Some(ToLower(area))) == GetFragmentInfo(Some(area))
  {
    ToLowerIdempotent(area);
  }

  // ---------------------------------------------------------------------------
  // The award of handleSubmit

  /** How the backend behaves during one submission: which calls fail, and the id
      an inserted `user_fragments` row gets. */
  datatype Backend = Backend(
    completionLookupFails: bool,
    completionInsertFails: bool,
    fragmentFetchFails: bool,
    rowLookupFails: bool,
    writeFails: bool,
    newRowId: int)

  /** A query ending in `.single()` or `.maybeSingle()`: its row when exactly one
      row matches, no row otherwise. */
  function Single<T>(s: seq<T>, p: T -> bool): (r: Option<T>)
    ensures r.Some? ==> r.value in s && p(r.value) && Count(s, p) == 1
    ensures r.None? ==> Count(s, p) != 1
  {
    if Count(s, p) == 1 then
      CountPositive(s, p);
      match Find(s, p)
      case Some(x) => Some(x)
      case None => assert false; None
    else None
  }

  predicate OfGuardian(guardianId: int, f: Fragment)
  {
    f.guardian.Some? && f.guardian.value.id == guardianId
  }

  predicate IsRow(userId: int, fragmentId: int, uf: UserFragment)
  {
    uf.userId == userId && uf.fragmentId == fragmentId
  }

  /** The `user_fragments` table after awarding the learner one fragment of the
      guardian: found row raised to `min(q + 1, 15)`, missing row inserted with 1.
      A failed or ambiguous fragment lookup awards nothing; a failed or ambiguous
      row lookup inserts a fresh row. */
  function Award(table: seq<UserFragment>, fragments: seq<Fragment>, userId: int, guardianId: int, b: Backend)
    : (r: seq<UserFragment>)
    ensures |table| <= |r| <= |table| + 1
    ensures forall i :: 0 <= i < |table| ==>
      r[i].id == table[i].id && r[i].userId == table[i].userId && r[i].fragmentId == table[i].fragmentId
    ensures b.fragmentFetchFails || b.writeFails ==> r == table
    ensures |r| == |table| + 1 ==> r[|table|] == UserFragment(b.newRowId, userId, r[|table|].fragmentId, Some(1))
  {
    var fragment := if b.fragmentFetchFails then None else Single(fragments, f => OfGuardian(guardianId, f));
    match fragment
    case None => table
    case Some(fr) =>
      var existing := if b.rowLookupFails then None else Single(table, uf => IsRow(userId, fr.id, uf));
      if b.writeFails then table
      else match existing
        case Some(row) => UpdateRows(table, row.id, Min(OrElse(row.quantidadeAtual, 0) + 1, MaxFragments))
        case None => table + [UserFragment(b.newRowId, userId, fr.id, Some(1))]
  }

  /** What a passing submission does to the two tables, and the review flag of
      the celebration: the completion is recorded, and a fragment is awarded
      unless the completion was already recorded. */
  function PassEffect(completions: seq<Completion>, table: seq<UserFragment>, fragments: seq<Fragment>,
                      user: Option<int>, lessonId: int, guardianId: Option<int>, b: Backend)
    : (r: (seq<Completion>, seq<UserFragment>, bool))
    ensures r.2 || user.None? || guardianId.None? ==> r.1 == table
    ensures user.Some? && guardianId.Some? && !r.2 ==> r.1 == Award(table, fragments, user.value, guardianId.value, b)
    ensures user.None? ==> r.0 == completions && !r.2
  {
    var (rows, marked) := Mark(completions, user, lessonId, b.completionLookupFails, b.completionInsertFails);
    var was := marked.alreadyCompleted;
    if was || guardianId.None? || user.None? then (rows, table, was)
    else (rows, Award(table, fragments, user.value, guardianId.value, b), was)
  }

  /** Every stored quantity stays within the cap of 15. */
  lemma AwardCapped(table: seq<UserFragment>, fragments: seq<Fragment>, userId: int, guardianId: int, b: Backend)
    requires forall uf <- table :: Capped(uf)
    ensures forall uf <- Award(table, fragments, userId, guardianId, b) :: Capped(uf)
  {
    var after := Award(table, fragments, userId, guardianId, b);
    forall uf | uf in after ensures Capped(uf) {
      var i :| 0 <= i < |after| && after[i] == uf;
      if i < |table| {
        assert table[i] in table;
      }
    }
  }

  /** With the fragment and the learner's row found, the row's quantity becomes
      `min(q + 1, 15)` and every other row is left alone. */
  lemma AwardRaisesExistingRow(table: seq<UserFragment>, fragments: seq<Fragment>, userId: int,
                               guardianId: int, b: Backend, fr: Fragment, row: UserFragment)
    requires !b.fragmentFetchFails && !b.rowLookupFails && !b.writeFails
    requires Single(fragments, f => OfGuardian(guardianId, f)) == Some(fr)
    requires Single(table, uf => IsRow(userId, fr.id, uf)) == Some(row)
    ensures var after := Award(table, fragments, userId, guardianId, b);
      && |after| == |table|
      && forall i :: 0 <= i < |table| ==>
           if table[i].id == row.id
           then after[i] == table[i].(quantidadeAtual := Some(Min(OrElse(row.quantidadeAtual, 0) + 1, MaxFragments)))
           else after[i] == table[i]
  {
  }

  /** Without a row of the learner for the fragment, exactly one row holding 1 is
      added at the end. */
  lemma AwardInsertsRow(table: seq<UserFragment>, fragments: seq<Fragment>, userId: int,
                        guardianId: int, b: Backend, fr: Fragment)
    requires !b.fragmentFetchFails && !b.rowLookupFails && !b.writeFails
    requires Single(fragments, f => OfGuardian(guardianId, f)) == Some(fr)
    requires forall uf <- table :: !IsRow(userId, fr.id, uf)
    ensures Award(table, fragments, userId, guardianId, b) == table + [UserFragment(b.newRowId, userId, fr.id, Some(1))]
  {
    CountZero(table, uf => IsRow(userId, fr.id, uf));
  }

  /** When the lesson was already completed, a pass changes neither table and the
      celebration is a review. */
  lemma NoAwardWhenAlreadyCompleted(completions: seq<Completion>, table: seq<UserFragment>, fragments: seq<Fragment>,
                                    userId: int, lessonId: int, guardianId: Option<int>, b: Backend)
    requires !b.completionLookupFails
    requires Matches(completions, userId, lessonId) == 1
    ensures PassEffect(completions, table, fragments, Some(userId), lessonId, guardianId, b) == (completions, table, true)
  {
  }

  /** A failed completion lookup reads as "not completed yet", so a learner who
      passes again is awarded again. */
  lemma LookupFailureAwardsAgain(completions: seq<Completion>, table: seq<UserFragment>, fragments: seq<Fragment>,
                                 userId: int, lessonId: int, guardianId: int, b: Backend)
    requires b.completionLookupFails
    ensures var (_, after, review) := PassEffect(completions, table, fragments, Some(userId), lessonId, Some(guardianId), b);
      !review && after == Award(table, fragments, userId, guardianId, b)
  {
  }

  /** A fragment is awarded on the first pass only: after a first pass that
      records the completion, a second pass is a review and awards nothing. */
  lemma AwardOnlyOnFirstPass(completions: seq<Completion>, table: seq<UserFragment>, fragments: seq<Fragment>,
                             userId: int, lessonId: int, guardianId: Option<int>, b: Backend, b2: Backend)
    requires Completion(userId, lessonId) !in completions
    requires !b.completionLookupFails && !b.completionInsertFails && !b2.completionLookupFails
    ensures var (rows1, table1, review1) := PassEffect(completions, table, fragments, Some(userId), lessonId, guardianId, b);
      var (rows2, table2, review2) := PassEffect(rows1, table1, fragments, Some(userId), lessonId, guardianId, b2);
      !review1 && review2 && rows2 == rows1 && table2 == table1
  {
    MarkTwice(completions, userId, lessonId);
  }

  // ---------------------------------------------------------------------------
  // The page

  /** The activity page's state for one lesson, with the two tables it writes. */
  class ActivityRunner {
    const activities: seq<Activity>
    const user: Option<int>
    var currentQuestion: nat
    var answers: Answers
    var showResult: bool
    var result: Option<Validation>
    var showCelebration: bool
    var isReviewMode: bool
    var completions: seq<Completion>
    var userFragments: seq<UserFragment>

    /** The shown question is one of the sheet's. */
    predicate Valid()
      reads this
    {
      activities != [] ==> currentQuestion < |activities|
    }

    constructor (activities: seq<Activity>, user: Option<int>, completions: seq<Completion>, userFragments: seq<UserFragment>)
      ensures Valid()
      ensures this.activities == activities && this.user == user
      ensures this.completions == completions && this.userFragments == userFragments
      ensures currentQuestion == 0 && answers == map[] && result.None?
      ensures !showResult && !showCelebration && !isReviewMode
    {
      this.activities := activities;
      this.user := user;
      this.completions := completions;
      this.userFragments := userFragments;
      currentQuestion := 0;
      answers := map[];
      showResult := false;
      result := None;
      showCelebration := false;
      isReviewMode := false;
    }

    /** `handleAnswer(i, answer)`: only the answer at `i` changes. */
    method HandleAnswer(i: int, answer: Value)
      requires Valid()
      modifies this
      ensures Valid()
      ensures answers == old(answers)[i := answer]
      ensures forall j :: j != i ==> AnswerAt(answers, j) == AnswerAt(old(answers), j)
      ensures currentQuestion == old(currentQuestion) && showResult == old(showResult) && result == old(result)
      ensures showCelebration == old(showCelebration) && isReviewMode == old(isReviewMode)
      ensures completions == old(completions) && userFragments == old(userFragments)
    {
      answers := answers[i := answer];
    }

    /** A click on checkbox option `idx` of the shown question. */
    method ClickCheckbox(idx: int)
      requires Valid()
      modifies this
      ensures Valid()
      ensures answers == old(answers)[old(currentQuestion) := ToggleCheckbox(AnswerAt(old(answers), old(currentQuestion)), idx)]
      ensures currentQuestion == old(currentQuestion) && showResult == old(showResult) && result == old(result)
      ensures showCelebration == old(showCelebration) && isReviewMode == old(isReviewMode)
      ensures completions == old(completions) && userFragments == old(userFragments)
    {
      var current := AnswerAt(answers, currentQuestion);
      HandleAnswer(currentQuestion, ToggleCheckbox(current, idx));
    }

    /** "Próxima": only before the last question, and only once it is answered. */
    method Next()
      requires Valid()
      modifies this
      ensures Valid()
      ensures currentQuestion == if old(currentQuestion) + 1 < |activities| && HasAnswered(AnswerAt(answers, old(currentQuestion)))
                                 then old(currentQuestion) + 1 else old(currentQuestion)
      ensures answers == old(answers) && showResult == old(showResult) && result == old(result)
      ensures showCelebration == old(showCelebration) && isReviewMode == old(isReviewMode)
      ensures completions == old(completions) && userFragments == old(userFragments)
    {
      if currentQuestion + 1 < |activities| && HasAnswered(AnswerAt(answers, currentQuestion)) {
        currentQuestion := currentQuestion + 1;
      }
    }

    /** "Anterior": shown from the second question on. */
    method Previous()
      requires Valid()
      modifies this
      ensures Valid()
      ensures currentQuestion == if old(currentQuestion) > 0 then old(currentQuestion) - 1 else 0
      ensures answers == old(answers) && showResult == old(showResult) && result == old(result)
      ensures showCelebration == old(showCelebration) && isReviewMode == old(isReviewMode)
      ensures completions == old(completions) && userFragments == old(userFragments)
    {
      if currentQuestion > 0 {
        currentQuestion := currentQuestion - 1;
      }
    }

    /** `handleSubmit`: grade the sheet; below the pass mark show the result screen
        and touch nothing else; on a pass record the completion, award a fragment
        unless the lesson was already completed, and celebrate. */
    method HandleSubmit(lessonId: int, guardianId: Option<int>, fragments: seq<Fragment>, b: Backend)
      requires Valid()
      modifies this
      ensures Valid()
      ensures var v := Grade(activities, old(answers));
        && result == Some(v)
        && currentQuestion == old(currentQuestion) && answers == old(answers)
        && (!v.passed ==>
              && showResult && showCelebration == old(showCelebration) && isReviewMode == old(isReviewMode)
              && completions == old(completions) && userFragments == old(userFragments))
        && (v.passed ==>
              && showCelebration && showResult == old(showResult)
              && (completions, userFragments, isReviewMode)
                 == PassEffect(old(completions), old(userFragments), fragments, user, lessonId, guardianId, b))
    {
      var v := ValidateAnswers(activities, answers);
      result := Some(v);
      if v.passed {
        var (rows, marked) := Mark(completions, user, lessonId, b.completionLookupFails, b.completionInsertFails);
        completions := rows;
        var wasAlreadyCompleted := marked.alreadyCompleted;
        if !wasAlreadyCompleted && guardianId.Some? && user.Some? {
          userFragments := Award(userFragments, fragments, user.value, guardianId.value, b);
        }
        isReviewMode := wasAlreadyCompleted;
        showCelebration := true;
      } else {
        showResult := true;
      }
    }

    /** "Tentar Novamente": back to the first question with no answers and no
        result. */
    method Retry()
      modifies this
      ensures Valid()
      ensures answers == map[] && currentQuestion == 0 && !showResult && result.None?
      ensures showCelebration == old(showCelebration) && isReviewMode == old(isReviewMode)
      ensures completions == old(completions) && userFragments == old(userFragments)
    {
      answers := map[];
      currentQuestion := 0;
      showResult := false;
      result := None;
    }
  }
}

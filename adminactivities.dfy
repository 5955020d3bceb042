/** The administrator's activity screen (src/pages/admin/AdminActivities.jsx): a
    four-step wizard (guardian, lesson, question type, question) whose last step
    turns the form into the stored activity, and the edit path that fills the form
    back from a stored activity. */
module AdminActivities {
  import opened Common
  import opened Lessons
  import opened Activities
  import opened AdminComponents
  import AdminLessons

  /** The wizard's form (`formData`). `lessonId` is `None` while no lesson is
      chosen (the source's `''`). */
  datatype ActivityForm = ActivityForm(
    lessonId: Option<int>,
    tipo: string,
    pergunta: string,
    opcoes: seq<string>,
    respostaQuiz: int,
    respostaCheckbox: seq<int>,
    respostaFill: string,
    ordem: int)

  /** An activity row as listed: `dados.opcoes` may be missing. */
  datatype StoredActivity = StoredActivity(
    id: int,
    lessonId: int,
    tipo: string,
    pergunta: string,
    opcoes: Option<seq<string>>,
    respostaCorreta: Solution,
    ordem: int)

  /** The row the wizard writes (`activityData`); `opcoes` is `None` when `dados`
      is the empty object. */
  datatype ActivityData = ActivityData(
    lessonId: Option<int>,
    tipo: string,
    pergunta: string,
    opcoes: Option<seq<string>>,
    respostaCorreta: Solution,
    ordem: int)

  datatype ActivityWrite = CreatedActivity(data: ActivityData) | UpdatedActivity(activityId: int, data: ActivityData)

  const ActivityStepCount := 4
  const BlankOptions: seq<string> := ["", "", "", ""]

  /** The form of a new activity: a quiz with four empty options. */
  const EmptyActivityForm := ActivityForm(None, "quiz", "", BlankOptions, 0, [], "", 1)

  /** An option the admin filled in (`o.trim() !== ''`). */
  predicate NonBlank(o: string) { Trim(o) != "" }

  // ---------------------------------------------------------------------------
  // Filling the form from a stored activity

  /** `n` empty options. */
  function Blanks(n: nat): (r: seq<string>)
    ensures |r| == n
    ensures forall i :: 0 <= i < n ==> r[i] == ""
  {
    if n == 0 then [] else Blanks(n - 1) + [""]
  }

  /** The options of the edit form: `stored` (or four empty options when there
      is none) followed by empty options up to four. */
  function PaddedOptions(stored: Option<seq<string>>): (r: seq<string>)
    ensures |r| == Max(|OrElse(stored, BlankOptions)|, 4)
    ensures stored.Some? ==> r[..|stored.value|] == stored.value
    ensures stored.None? ==> r == BlankOptions
    ensures forall i :: |OrElse(stored, BlankOptions)| <= i < |r| ==> r[i] == ""
  {
    var base := OrElse(stored, BlankOptions);
    base + Blanks(Max(|base|, 4) - |base|)
  }

  /** `activity.dados?.opcoes || ['', '', '', '']`, then `opcoes.push('')` while
      there are fewer than four. */
  method PadOptions(stored: Option<seq<string>>) returns (opcoes: seq<string>)
    ensures opcoes == PaddedOptions(stored)
  {
    var base := OrElse(stored, BlankOptions);
    opcoes := base;
    while |opcoes| < 4
      invariant |base| <= |opcoes| <= Max(|base|, 4)
      invariant opcoes == base + Blanks(|opcoes| - |base|)
      decreases 4 - |opcoes|
    {
      assert base + Blanks(|opcoes| - |base|) + [""] == base + Blanks(|opcoes| + 1 - |base|);
      opcoes := opcoes + [""];
    }
  }

  /** Padding keeps the stored options first, in order, makes at least four, and
      adds only blank ones, so the options the form would save are the stored
      ones. */
  lemma PaddedOptionsKeepStored(stored: Option<seq<string>>)
    ensures var base := OrElse(stored, BlankOptions); var opcoes := PaddedOptions(stored);
      && |opcoes| == Max(|base|, 4)
      && opcoes[..|base|] == base
      && (forall i :: |base| <= i < |opcoes| ==> opcoes[i] == "")
      && Filter(opcoes, NonBlank) == Filter(base, NonBlank)
  {
    var base := OrElse(stored, BlankOptions);
    var n := Max(|base|, 4) - |base|;
    var pad := Blanks(n);
    var opcoes := PaddedOptions(stored);
    assert opcoes == base + pad;
    assert opcoes[..|base|] == base;
    forall i | |base| <= i < |opcoes| ensures opcoes[i] == "" {
      assert opcoes[i] == pad[i - |base|];
    }
    FilterAppend(base, pad, NonBlank);
    BlanksFilterEmpty(n);
    assert Filter(base, NonBlank) + [] == Filter(base, NonBlank);
  }

  /** No blank is kept. */
  lemma BlanksFilterEmpty(n: nat)
    ensures Filter(Blanks(n), NonBlank) == []
  {
    var blanks := Blanks(n);
    assert !NonBlank("") by {
      assert Trim("") == "";
    }
    assert forall o <- blanks :: o == "";
    FilterNone(blanks, NonBlank);
  }

  /** An empty option adds nothing to the filtered options. */
  lemma AppendBlankKeepsOptions(opcoes: seq<string>)
    ensures Filter(opcoes + [""], NonBlank) == Filter(opcoes, NonBlank)
  {
    FilterAppend(opcoes, [""], NonBlank);
    assert Trim("") == "";
    FilterCons([""], NonBlank);
    assert [""][1..] == [];
  }

  /** The form of `handleEdit(activity)`, given the padded options: a missing or
      zero quiz index reads as 0, missing checkbox indices as none, a missing
      text as empty. */
  function EditActivityForm(a: StoredActivity, opcoes: seq<string>): (f: ActivityForm)
    ensures f.lessonId == Some(a.lessonId) && f.tipo == a.tipo && f.pergunta == a.pergunta
    ensures f.opcoes == opcoes && f.ordem == a.ordem
    ensures a.respostaCorreta.indice.Num? ==> f.respostaQuiz == a.respostaCorreta.indice.n
    ensures !a.respostaCorreta.indice.Num? ==> f.respostaQuiz == 0
    ensures a.respostaCorreta.indices.Arr? ==> f.respostaCheckbox == a.respostaCorreta.indices.items
    ensures !a.respostaCorreta.indices.Arr? ==> f.respostaCheckbox == []
    ensures a.respostaCorreta.valor.Str? ==> f.respostaFill == a.respostaCorreta.valor.s
    ensures !a.respostaCorreta.valor.Str? ==> f.respostaFill == ""
  {
    var sol := a.respostaCorreta;
    ActivityForm(
      Some(a.lessonId), a.tipo, a.pergunta, opcoes,
      if sol.indice.Num? then sol.indice.n else 0,
      if sol.indices.Arr? then sol.indices.items else [],
      if sol.valor.Str? then sol.valor.s else "",
      a.ordem)
  }

  predicate HasId(id: int, l: Lesson) { l.id == id }

  /** `lessons.find(l => l.id === activity.lesson_id)?.guardian_id || ''`: the
      guardian of the first listed lesson with that id, none when no lesson has
      it. */
  function GuardianOfLesson(lessons: seq<Lesson>, lessonId: int): (g: Option<int>)
    ensures g.None? <==> forall l <- lessons :: l.id != lessonId
    ensures g.Some? ==> exists k :: 0 <= k < |lessons| && lessons[k].id == lessonId && lessons[k].guardianId == g.value
                               && forall j :: 0 <= j < k ==> lessons[j].id != lessonId
  {
    match FindIndex(lessons, l => HasId(lessonId, l))
    case None => None
    case Some(k) => Some(lessons[k].guardianId)
  }

  /** With lesson ids unique, an activity saved for a lesson offered under a
      guardian (`filteredLessons`) is opened by `handleEdit` with that same
      guardian chosen. */
  lemma EditFindsChosenGuardian(lessons: seq<Lesson>, g: int, l: Lesson)
    requires forall i, j :: 0 <= i < j < |lessons| ==> lessons[i].id != lessons[j].id
    requires l in LessonsFor(lessons, Some(g))
    ensures GuardianOfLesson(lessons, l.id) == Some(g)
  {
    var m :| 0 <= m < |lessons| && lessons[m] == l;
    var r := GuardianOfLesson(lessons, l.id);
    var k :| 0 <= k < |lessons| && lessons[k].id == l.id && lessons[k].guardianId == r.value
             && forall j :: 0 <= j < k ==> lessons[j].id != l.id;
    assert k == m;
  }

  // ---------------------------------------------------------------------------
  // Wizard steps

  /** `canProceed()` for step `step`: a guardian, then a lesson, then a type, then
      a question with text and, except for a fill-in-the-blank, two options
      filled in. */
  predicate CanProceed(step: int, guardian: Option<int>, f: ActivityForm)
    ensures CanProceed(step, guardian, f) ==> 0 <= step <= 3
    ensures step == 3 && CanProceed(step, guardian, f) ==> exists i :: 0 <= i < |f.pergunta| && !IsSpace(f.pergunta[i])
  {
    match step
    case 0 => guardian.Some?
    case 1 => f.lessonId.Some?
    case 2 => f.tipo != ""
    case 3 =>
      if NonBlank(f.pergunta) && (f.tipo == "fill_blank" || |Filter(f.opcoes, NonBlank)| >= 2) then
        AdminLessons.NotAllSpace(f.pergunta);
        true
      else false
    case _ => false
  }

  // ---------------------------------------------------------------------------
  // handleSubmit

  /** The three types `handleSubmit` knows. */
  predicate KnownType(tipo: string)
  {
    tipo == "quiz" || tipo == "checkbox" || tipo == "fill_blank"
  }

  /** The row `handleSubmit` writes: the options filled in, in order, and the
      answer the form marks, by type; a type it does not know gets empty
      `dados` and `resposta_correta`. The marked indices are stored as they
      are, counted in the unfiltered option list. */
  function Encode(f: ActivityForm): (r: ActivityData)
    ensures r.lessonId == f.lessonId && r.tipo == f.tipo && r.pergunta == f.pergunta && r.ordem == f.ordem
    ensures r.opcoes.Some? <==> KnownType(f.tipo)
    ensures KnownType(f.tipo) ==> r.opcoes == Some(Filter(f.opcoes, NonBlank))
    ensures r.opcoes.Some? ==> forall o <- r.opcoes.value :: NonBlank(o) && o in f.opcoes
    ensures r.opcoes.Some? ==> forall o <- f.opcoes :: NonBlank(o) ==> o in r.opcoes.value
    ensures f.tipo == "quiz" ==> r.respostaCorreta == Solution(Num(f.respostaQuiz), Undefined, Undefined)
    ensures f.tipo == "checkbox" ==> r.respostaCorreta == Solution(Undefined, Arr(f.respostaCheckbox), Undefined)
    ensures f.tipo == "fill_blank" ==> r.respostaCorreta == Solution(Undefined, Undefined, Str(f.respostaFill))
    ensures !KnownType(f.tipo) ==> r.respostaCorreta == Solution(Undefined, Undefined, Undefined)
  {
    var shown := Filter(f.opcoes, NonBlank);
    var (dados, sol) :=
      if f.tipo == "quiz" then (Some(shown), Solution(Num(f.respostaQuiz), Undefined, Undefined))
      else if f.tipo == "checkbox" then (Some(shown), Solution(Undefined, Arr(f.respostaCheckbox), Undefined))
      else if f.tipo == "fill_blank" then (Some(shown), Solution(Undefined, Undefined, Str(f.respostaFill)))
      else (None, Solution(Undefined, Undefined, Undefined));
    ActivityData(f.lessonId, f.tipo, f.pergunta, dados, sol, f.ordem)
  }

  /** A question the last step lets through is stored with at least two options
      when it is a quiz or a checkbox question. */
  lemma SubmittedChoicesHaveTwoOptions(g: Option<int>, f: ActivityForm)
    requires CanProceed(3, g, f) && (f.tipo == "quiz" || f.tipo == "checkbox")
    ensures Encode(f).opcoes.Some? && |Encode(f).opcoes.value| >= 2
  {
  }

  /** The activity the learner is graded on once `r` is stored. */
  function Graded(id: int, r: ActivityData): Activity
  {
    Activity(id, r.tipo, r.respostaCorreta)
  }

  /** With a blank option before the marked one, the stored index points past the
      marked option: the admin marks "A" among `["", "A", "B", ""]`, the learner
      is shown `["A", "B"]` and choosing "A" is graded wrong, while the stored
      index selects "B". */
  lemma EncodeShiftsQuizAnswer()
    ensures var f := EmptyActivityForm.(opcoes := ["", "A", "B", ""], respostaQuiz := 1);
      && f.opcoes[f.respostaQuiz] == "A"
      && Encode(f).opcoes == Some(["A", "B"])
      && !IsCorrect(Graded(0, Encode(f)), Num(0))
      && IsCorrect(Graded(0, Encode(f)), Num(1))
  {
    var f := EmptyActivityForm.(opcoes := ["", "A", "B", ""], respostaQuiz := 1);
    var r := Encode(f);
    assert r.respostaCorreta == Solution(Num(1), Undefined, Undefined);
    var a := Graded(0, r);
    assert a.tipo == "quiz" && a.respostaCorreta.indice == Num(1);
    QuizCorrectIff(a, Num(0));
    QuizCorrectIff(a, Num(1));
    ShownWithBlanks();
  }

  /** The options kept from `["", "A", "B", ""]`. */
  lemma ShownWithBlanks()
    ensures Filter(["", "A", "B", ""], NonBlank) == ["A", "B"]
  {
    NonBlankChar('A');
    NonBlankChar('B');
    assert !NonBlank("");
    FilterDropKeepKeepDrop("", "A", "B", "", NonBlank);
  }

  /** Filtering four elements of which only the middle two pass. */
  lemma FilterDropKeepKeepDrop<T(!new)>(w: T, x: T, y: T, z: T, p: T -> bool)
    requires !p(w) && p(x) && p(y) && !p(z)
    ensures Filter([w, x, y, z], p) == [x, y]
  {
    FilterCons([z], p);
    assert [z][1..] == [];
    FilterCons([y, z], p);
    assert [y, z][1..] == [z];
    FilterCons([x, y, z], p);
    assert [x, y, z][1..] == [y, z];
    FilterCons([w, x, y, z], p);
    assert [w, x, y, z][1..] == [x, y, z];
  }

  /** A one-character option that is not white space is kept. */
  lemma NonBlankChar(c: char)
    requires !IsSpace(c)
    ensures NonBlank([c])
  {
    TrimStartKeeps([c]);
    assert TrimEnd([c]) != [];
  }

  // ---------------------------------------------------------------------------
  // The intended encoding: indices counted among the options that are kept

  /** Where option `k` of the form lands among the options kept. */
  function Rank(opcoes: seq<string>, k: int): (j: nat)
    requires 0 <= k <= |opcoes|
    ensures j <= k
  {
    |Filter(opcoes[..k], NonBlank)|
  }

  /** Whether index `k` marks an option that is kept. */
  predicate MarksKept(opcoes: seq<string>, k: int)
  {
    0 <= k < |opcoes| && NonBlank(opcoes[k])
  }

  /** A kept option is found at its rank in the kept list. */
  lemma {:induction false} RankSelects(opcoes: seq<string>, k: int)
    requires MarksKept(opcoes, k)
    ensures Rank(opcoes, k) < |Filter(opcoes, NonBlank)|
    ensures Filter(opcoes, NonBlank)[Rank(opcoes, k)] == opcoes[k]
  {
    var pre, post := opcoes[..k], opcoes[k..];
    assert opcoes == pre + post;
    FilterAppend(pre, post, NonBlank);
    FilterCons(post, NonBlank);
    assert post[0] == opcoes[k];
  }

  /** The checkbox indices moved to the kept list; indices marking a blank or
      missing option are dropped. */
  function RemapIndices(opcoes: seq<string>, ks: seq<int>): (r: seq<int>)
    ensures forall j :: j in r <==> exists k :: k in ks && MarksKept(opcoes, k) && j == Rank(opcoes, k)
  {
    if ks == [] then []
    else
      var rest := RemapIndices(opcoes, ks[1..]);
      assert forall k :: k in ks <==> k == ks[0] || k in ks[1..] by {
        assert ks == [ks[0]] + ks[1..];
      }
      if MarksKept(opcoes, ks[0]) then [Rank(opcoes, ks[0])] + rest else rest
  }

  /** `handleSubmit` as evidently intended: the same row, with the quiz index and
      the checkbox indices counted among the options that are kept. A quiz whose
      marked option is blank has no correct index (`null`). */
  function EncodeRemapped(f: ActivityForm): (r: ActivityData)
    ensures r.lessonId == f.lessonId && r.tipo == f.tipo && r.pergunta == f.pergunta && r.ordem == f.ordem
    ensures r.opcoes == Encode(f).opcoes
    ensures f.tipo != "quiz" && f.tipo != "checkbox" ==> r == Encode(f)
  {
    var e := Encode(f);
    if f.tipo == "quiz" then
      var indice := if MarksKept(f.opcoes, f.respostaQuiz) then Num(Rank(f.opcoes, f.respostaQuiz)) else Null;
      e.(respostaCorreta := Solution(indice, Undefined, Undefined))
    else if f.tipo == "checkbox" then
      e.(respostaCorreta := Solution(Undefined, Arr(RemapIndices(f.opcoes, f.respostaCheckbox)), Undefined))
    else e
  }

  /** With the remapped encoding the learner who picks the option the admin
      marked is graded correct, and no other position is. */
  lemma RemappedQuizGradesMarked(f: ActivityForm, id: int)
    requires f.tipo == "quiz" && MarksKept(f.opcoes, f.respostaQuiz)
    ensures var r := EncodeRemapped(f); var j := Rank(f.opcoes, f.respostaQuiz);
      && r.opcoes.Some? && j < |r.opcoes.value| && r.opcoes.value[j] == f.opcoes[f.respostaQuiz]
      && IsCorrect(Graded(id, r), Num(j))
      && forall i: int :: i != j ==> !IsCorrect(Graded(id, r), Num(i))
  {
    var j := Rank(f.opcoes, f.respostaQuiz);
    var r := EncodeRemapped(f);
    assert r.opcoes == Some(Filter(f.opcoes, NonBlank));
    RankSelects(f.opcoes, f.respostaQuiz);
    var a := Graded(id, r);
    assert a.tipo == "quiz" && a.respostaCorreta.indice == Num(j);
    forall i: int ensures IsCorrect(a, Num(i)) <==> i == j {
      QuizCorrectIff(a, Num(i));
    }
  }

  /** With the remapped encoding every stored checkbox index selects a kept option
      the admin marked, and every kept option the admin marked is stored. */
  lemma RemappedCheckboxKeepsMarked(f: ActivityForm)
    requires f.tipo == "checkbox"
    ensures var r := EncodeRemapped(f); var shown := Filter(f.opcoes, NonBlank);
      && r.opcoes == Some(shown) && r.respostaCorreta.indices.Arr?
      && (forall j <- r.respostaCorreta.indices.items :: 0 <= j < |shown|
            && exists k :: k in f.respostaCheckbox && MarksKept(f.opcoes, k) && shown[j] == f.opcoes[k])
      && (forall k <- f.respostaCheckbox :: MarksKept(f.opcoes, k) ==>
            Rank(f.opcoes, k) in r.respostaCorreta.indices.items && shown[Rank(f.opcoes, k)] == f.opcoes[k])
  {
    var shown := Filter(f.opcoes, NonBlank);
    var items := RemapIndices(f.opcoes, f.respostaCheckbox);
    forall j <- items
      ensures 0 <= j < |shown| && exists k :: k in f.respostaCheckbox && MarksKept(f.opcoes, k) && shown[j] == f.opcoes[k]
    {
      var k :| k in f.respostaCheckbox && MarksKept(f.opcoes, k) && j == Rank(f.opcoes, k);
      RankSelects(f.opcoes, k);
    }
    forall k <- f.respostaCheckbox | MarksKept(f.opcoes, k)
      ensures Rank(f.opcoes, k) in items && shown[Rank(f.opcoes, k)] == f.opcoes[k]
    {
      RankSelects(f.opcoes, k);
    }
  }

  /** Without a blank option the remapped encoding is the encoding as written:
      the two differ only when a blank option is dropped. */
  lemma {:induction false} RankWithoutBlanks(opcoes: seq<string>, k: int)
    requires forall o <- opcoes :: NonBlank(o)
    requires 0 <= k <= |opcoes|
    ensures Rank(opcoes, k) == k
  {
    var pre := opcoes[..k];
    assert forall o <- pre :: NonBlank(o);
    FilterAll(pre, NonBlank);
  }

  // ---------------------------------------------------------------------------
  // The page state

  class ActivityWizard {
    var view: AdminLessons.View
    var step: int
    var guardian: Option<int>
    var form: ActivityForm
    var editing: Option<StoredActivity>
    var saving: bool
    var message: AdminLessons.Message

    /** The step shown is one of the four. */
    predicate Valid()
      reads this
    {
      0 <= step < ActivityStepCount
    }

    constructor ()
      ensures Valid()
      ensures view == AdminLessons.ListView && step == 0 && guardian.None? && form == EmptyActivityForm && editing.None?
      ensures !saving && message == AdminLessons.NoMessage
    {
      view := AdminLessons.ListView;
      step := 0;
      guardian := None;
      form := EmptyActivityForm;
      editing := None;
      saving := false;
      message := AdminLessons.NoMessage;
    }

    /** `handleStartCreate`: a blank quiz form, no guardian, first step. */
    method StartCreate()
      modifies this
      ensures view == AdminLessons.WizardView && step == 0 && guardian.None? && form == EmptyActivityForm && editing.None?
      ensures saving == old(saving) && message == old(message)
      ensures Valid()
    {
      form := EmptyActivityForm;
      guardian := None;
      step := 0;
      editing := None;
      view := AdminLessons.WizardView;
    }

    /** `handleEdit(activity)`: the activity's form with its options padded to
      four, the guardian of its lesson, straight at the question step. */
    method Edit(a: StoredActivity, lessons: seq<Lesson>)
      modifies this
      ensures editing == Some(a) && step == ActivityStepCount - 1 && view == AdminLessons.EditView
      ensures guardian == GuardianOfLesson(lessons, a.lessonId)
      ensures form == EditActivityForm(a, PaddedOptions(a.opcoes))
      ensures saving == old(saving) && message == old(message)
      ensures Valid()
    {
      editing := Some(a);
      var opcoes := PadOptions(a.opcoes);
      form := EditActivityForm(a, opcoes);
      guardian := GuardianOfLesson(lessons, a.lessonId);
      step := 3;
      view := AdminLessons.EditView;
    }

    /** `handleCancel`: back to the list, nothing being edited, first step. */
    method Cancel()
      modifies this
      ensures view == AdminLessons.ListView && editing.None? && step == 0
      ensures form == old(form) && guardian == old(guardian)
      ensures saving == old(saving) && message == old(message)
      ensures Valid()
    {
      view := AdminLessons.ListView;
      editing := None;
      step := 0;
    }

    /** `handleBack`: one step back, never before the first. */
    method Back()
      requires Valid()
      modifies this
      ensures step == if old(step) > 0 then old(step) - 1 else 0
      ensures view == old(view) && form == old(form) && guardian == old(guardian) && editing == old(editing)
      ensures saving == old(saving) && message == old(message)
      ensures Valid()
    {
      if step > 0 {
        step := step - 1;
      }
    }

    /** The guardian step's `onSelect`: the guardian changes and the chosen lesson
        is cleared, since it may belong to another guardian. */
    method SelectGuardian(id: int)
      modifies this
      ensures guardian == Some(id) && form == old(form).(lessonId := None)
      ensures view == old(view) && step == old(step) && editing == old(editing)
      ensures saving == old(saving) && message == old(message)
    {
      guardian := Some(id);
      form := form.(lessonId := None);
    }

    /** The lesson step's `onSelect`. */
    method SelectLesson(id: int)
      modifies this
      ensures form == old(form).(lessonId := Some(id))
      ensures guardian == old(guardian) && view == old(view) && step == old(step) && editing == old(editing)
      ensures saving == old(saving) && message == old(message)
    {
      form := form.(lessonId := Some(id));
    }

    /** The type step's `onSelect`: the type changes and the options and answers
        typed so far stay. */
    method SelectType(tipo: string)
      modifies this
      ensures form == old(form).(tipo := tipo)
      ensures guardian == old(guardian) && view == old(view) && step == old(step) && editing == old(editing)
      ensures saving == old(saving) && message == old(message)
    {
      form := form.(tipo := tipo);
    }

    /** `handleOpcaoChange(index, value)`: one option's text replaced. */
    method SetOption(index: int, value: string)
      requires 0 <= index < |form.opcoes|
      modifies this
      ensures |form.opcoes| == |old(form.opcoes)| && form.opcoes[index] == value
      ensures forall i :: 0 <= i < |form.opcoes| && i != index ==> form.opcoes[i] == old(form.opcoes[i])
      ensures form == old(form).(opcoes := form.opcoes)
      ensures view == old(view) && step == old(step) && guardian == old(guardian) && editing == old(editing)
      ensures saving == old(saving) && message == old(message)
    {
      form := form.(opcoes := form.opcoes[index := value]);
    }

    /** `handleCheckboxToggle(index)`: the index is unmarked if marked, appended
        otherwise. */
    method ToggleCheckbox(index: int)
      modifies this
      ensures form == old(form).(respostaCheckbox := Toggle(old(form.respostaCheckbox), index))
      ensures view == old(view) && step == old(step) && guardian == old(guardian) && editing == old(editing)
      ensures saving == old(saving) && message == old(message)
    {
      form := form.(respostaCheckbox := Toggle(form.respostaCheckbox, index));
    }

    /** The position field: `parseInt(value) || 1`. */
    method SetOrdem(text: string)
      modifies this
      ensures form == old(form).(ordem := PositionInput(text))
      ensures view == old(view) && step == old(step) && guardian == old(guardian) && editing == old(editing)
      ensures saving == old(saving) && message == old(message)
    {
      form := form.(ordem := PositionInput(text));
    }

    /** `handleNext`: one step forward, or on the question step the submission.
        `writeError` is the error the database reports, if any. The write asked
        for is returned: an update of the encoded row when editing, otherwise an
        insert of it. */
    method Next(writeError: Option<string>) returns (w: Option<ActivityWrite>)
      requires Valid()
      modifies this
      ensures Valid()
      ensures form == old(form) && guardian == old(guardian)
      ensures saving == if old(step) < ActivityStepCount - 1 then old(saving) else false
      ensures old(step) < ActivityStepCount - 1 ==>
        && step == old(step) + 1 && w.None?
        && view == old(view) && editing == old(editing) && message == old(message)
      ensures old(step) == ActivityStepCount - 1 ==>
        && step == old(step)
        && w == Some(if old(editing).Some? then UpdatedActivity(old(editing).value.id, Encode(old(form))) else CreatedActivity(Encode(old(form))))
        && (writeError.Some? ==> message == AdminLessons.Failure(writeError.value) && view == old(view) && editing == old(editing))
        && (writeError.None? ==> message.Success? && view == AdminLessons.ListView && editing.None?)
    {
      if step < ActivityStepCount - 1 {
        step := step + 1;
        return None;
      }
      saving := true;
      message := AdminLessons.NoMessage;
      var data := Encode(form);
      if editing.Some? {
        w := Some(UpdatedActivity(editing.value.id, data));
        if writeError.None? {
          message := AdminLessons.Success("Questão atualizada com sucesso!");
        }
      } else {
        w := Some(CreatedActivity(data));
        if writeError.None? {
          message := AdminLessons.Success("Questão criada com sucesso!");
        }
      }
      if writeError.Some? {
        message := AdminLessons.Failure(writeError.value);
      } else {
        view := AdminLessons.ListView;
        editing := None;
      }
      saving := false;
    }

    /** `handleDelete(activityId)`: nothing unless the admin confirms; then the
        deletion is asked for and its outcome shown. Returns whether it was asked
        for. */
    method Delete(confirmed: bool, deleteError: Option<string>) returns (asked: bool)
      modifies this
      ensures asked == confirmed
      ensures !confirmed ==> message == old(message)
      ensures confirmed && deleteError.Some? ==> message == AdminLessons.Failure("Erro ao excluir: " + deleteError.value)
      ensures confirmed && deleteError.None? ==> message == AdminLessons.Success("Questão excluída com sucesso!")
      ensures view == old(view) && step == old(step) && form == old(form) && guardian == old(guardian)
      ensures editing == old(editing) && saving == old(saving)
    {
      if !confirmed {
        return false;
      }
      if deleteError.Some? {
        message := AdminLessons.Failure("Erro ao excluir: " + deleteError.value);
      } else {
        message := AdminLessons.Success("Questão excluída com sucesso!");
      }
      return true;
    }
  }
}

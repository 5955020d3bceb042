/** The administrator's lesson wizard (src/pages/admin/AdminLessons.jsx): five
    steps (guardian, grade group, unit, position, content), the positions already
    taken in the chosen guardian and unit, the step gate, and the edits of the
    video and image lists of the form. */
module AdminLessons {
  import opened Common
  import opened Lessons
  import AdminComponents

  // ---------------------------------------------------------------------------
  // existingPositions

  /** Whether a lesson sits in the chosen guardian and unit (strict equality: an
      unchosen guardian or a lesson without a unit matches nothing). */
  predicate AtSlot(guardianId: Option<int>, unidade: int, l: Lesson)
  {
    guardianId == Some(l.guardianId) && l.unidade == Some(unidade)
  }

  /** `.map(l => l.ordem)` */
  function Ordens(ls: seq<Lesson>): (r: seq<int>)
    ensures |r| == |ls|
    ensures forall i :: 0 <= i < |ls| ==> r[i] == ls[i].ordem
  {
    if ls == [] then [] else [ls[0].ordem] + Ordens(ls[1..])
  }

  function Identity(x: int): int { x }

  /** `existingPositions`: the positions of the lessons in the chosen guardian and
      unit, in ascending numeric order. */
  function ExistingPositions(lessons: seq<Lesson>, guardianId: Option<int>, unidade: int): (r: seq<int>)
    ensures forall i, j :: 0 <= i < j < |r| ==> r[i] <= r[j]
    ensures multiset(r) == multiset(Ordens(Filter(lessons, l => AtSlot(guardianId, unidade, l))))
  {
    SortBy(Ordens(Filter(lessons, l => AtSlot(guardianId, unidade, l))), Identity)
  }

  /** A position is listed exactly when some lesson of the chosen guardian and
      unit has it, so with no guardian chosen nothing is listed. */
  lemma ExistingPositionsIff(lessons: seq<Lesson>, guardianId: Option<int>, unidade: int, p: int)
    ensures p in ExistingPositions(lessons, guardianId, unidade) <==>
      exists l <- lessons :: AtSlot(guardianId, unidade, l) && l.ordem == p
  {
    var f := Filter(lessons, l => AtSlot(guardianId, unidade, l));
    var os := Ordens(f);
    var r := ExistingPositions(lessons, guardianId, unidade);
    assert p in r <==> p in os by {
      assert p in r <==> p in multiset(r);
    }
    if p in os {
      var i :| 0 <= i < |os| && os[i] == p;
      assert f[i] in f;
    }
    if exists l <- lessons :: AtSlot(guardianId, unidade, l) && l.ordem == p {
      var l :| l in lessons && AtSlot(guardianId, unidade, l) && l.ordem == p;
      assert l in f;
      var i :| 0 <= i < |f| && f[i] == l;
      assert os[i] == p;
    }
  }

  // ---------------------------------------------------------------------------
  // The form

  /** The blank form `handleStartCreate` sets. */
  const EmptyForm: LessonForm := LessonForm(None, "todos", 1, 1, "", "", Some(true), [], [])

  /** The form `handleEdit(lesson)` loads: the lesson's fields, a missing or empty
      grade group read as `'todos'`, a missing or zero unit as 1, missing lists as
      empty. */
  function EditForm(l: Lesson): (f: LessonForm)
    ensures f.guardianId == Some(l.guardianId) && f.ordem == l.ordem
    ensures f.titulo == l.titulo && f.conteudo == l.conteudo && f.ativo == Some(l.ativo)
    ensures f.grupoSerie == if l.grupoSerie.None? || l.grupoSerie == Some("") then "todos" else l.grupoSerie.value
    ensures f.unidade == if l.unidade.None? || l.unidade == Some(0) then 1 else l.unidade.value
    ensures f.videoUrls == OrElse(l.videoUrls, []) && f.imagens == OrElse(l.imagens, [])
  {
    LessonForm(
      Some(l.guardianId),
      if l.grupoSerie.None? || l.grupoSerie.value == "" then "todos" else l.grupoSerie.value,
      if l.unidade.None? || l.unidade.value == 0 then 1 else l.unidade.value,
      l.ordem, l.titulo, l.conteudo, Some(l.ativo),
      OrElse(l.videoUrls, []), OrElse(l.imagens, []))
  }

  /** A lesson that was itself saved from a complete form loads back as that form,
      up to the `ativo` default. */
  lemma EditFormRoundTrip(f: LessonForm, id: int, createdAt: int)
    requires f.guardianId.Some? && f.grupoSerie != "" && f.unidade != 0 && f.ativo.Some?
    ensures EditForm(Lesson(id, f.guardianId.value, f.titulo, f.conteudo, f.ordem, f.ativo.value,
                            Some(f.grupoSerie), Some(f.unidade), createdAt,
                            Some(f.videoUrls), Some(f.imagens))) == f
  {
  }

  /** `canProceed()` at the given step. */
  predicate CanProceed(step: int, f: LessonForm)
    ensures CanProceed(step, f) ==> 0 <= step <= 4
    ensures step == 4 && CanProceed(step, f) ==>
      (exists i :: 0 <= i < |f.titulo| && !IsSpace(f.titulo[i]))
      && (exists i :: 0 <= i < |f.conteudo| && !IsSpace(f.conteudo[i]))
  {
    match step
    case 0 => f.guardianId.Some?
    case 1 => f.grupoSerie != ""
    case 2 => f.unidade >= 1
    case 3 => f.ordem >= 1
    case 4 =>
      if Trim(f.titulo) != "" && Trim(f.conteudo) != "" then
        NotAllSpace(f.titulo);
        NotAllSpace(f.conteudo);
        true
      else false
    case _ => false
  }

  /** A form that may leave the content step has a title and a content with some
      text that is not white space, and the insert keeps them as typed. */
  lemma ContentStepGuardsInsert(f: LessonForm)
    requires CanProceed(4, f)
    ensures var row := CreateLesson(f);
      row.titulo == f.titulo && row.conteudo == f.conteudo
      && (exists i :: 0 <= i < |row.titulo| && !IsSpace(row.titulo[i]))
      && (exists i :: 0 <= i < |row.conteudo| && !IsSpace(row.conteudo[i]))
  {
    NotAllSpace(f.titulo);
    NotAllSpace(f.conteudo);
  }

  /** Text whose trim is not empty has a character that is not white space. */
  lemma NotAllSpace(s: string)
    requires Trim(s) != ""
    ensures exists i :: 0 <= i < |s| && !IsSpace(s[i])
  {
    var t := TrimStart(s);
    assert TrimEnd(t) != [];
    assert t[0] == s[|s| - |t|];
  }

  /** Only steps 0 to 4 can ever proceed. */
  lemma UnknownStepBlocks(step: int, f: LessonForm)
    requires step < 0 || step > 4
    ensures !CanProceed(step, f)
  {
  }

  /** The "−" and "+" buttons never close the position step, while a typed
      negative position does. */
  lemma PositionControlsAndStep(f: LessonForm, v: int, n: int)
    requires v >= 1 && n < 0
    ensures CanProceed(3, f.(ordem := AdminComponents.Decrement(v)))
    ensures CanProceed(3, f.(ordem := AdminComponents.Increment(v)))
    ensures !CanProceed(3, f.(ordem := AdminComponents.PositionInput(IntToString(n))))
  {
    AdminComponents.PositionInputRoundTrip(n);
  }

  // ---------------------------------------------------------------------------
  // Video and image lists

  /** "+ Adicionar" under the videos: an empty address at the end. */
  function AddVideo(f: LessonForm): (g: LessonForm)
    ensures g.videoUrls == f.videoUrls + [""]
    ensures g == f.(videoUrls := g.videoUrls)
  {
    f.(videoUrls := f.videoUrls + [""])
  }

  /** Typing into the `index`-th video field. */
  function SetVideo(f: LessonForm, index: nat, url: string): (g: LessonForm)
    requires index < |f.videoUrls|
    ensures |g.videoUrls| == |f.videoUrls| && g.videoUrls[index] == url
    ensures forall k :: 0 <= k < |f.videoUrls| && k != index ==> g.videoUrls[k] == f.videoUrls[k]
    ensures g == f.(videoUrls := g.videoUrls)
  {
    f.(videoUrls := f.videoUrls[index := url])
  }

  /** The bin next to the `index`-th video. */
  function RemoveVideo(f: LessonForm, index: int): (g: LessonForm)
    ensures g.videoUrls == RemoveAt(f.videoUrls, index)
    ensures g == f.(videoUrls := g.videoUrls)
  {
    f.(videoUrls := RemoveAt(f.videoUrls, index))
  }

  /** Adding a video and removing it straight away leaves the form as it was. */
  lemma AddThenRemoveVideo(f: LessonForm)
    ensures RemoveVideo(AddVideo(f), |f.videoUrls|) == f
  {
    RemoveLastAppended(f.videoUrls, "");
  }

  const BlankImage: Image := Image("", "", "")

  /** "+ Adicionar" under the images: a blank image at the end. */
  function AddImage(f: LessonForm): (g: LessonForm)
    ensures g.imagens == f.imagens + [BlankImage]
    ensures g == f.(imagens := g.imagens)
  {
    f.(imagens := f.imagens + [BlankImage])
  }

  /** The bin of the `index`-th image. */
  function RemoveImage(f: LessonForm, index: int): (g: LessonForm)
    ensures g.imagens == RemoveAt(f.imagens, index)
    ensures g == f.(imagens := g.imagens)
  {
    f.(imagens := RemoveAt(f.imagens, index))
  }

  lemma AddThenRemoveImage(f: LessonForm)
    ensures RemoveImage(AddImage(f), |f.imagens|) == f
  {
    RemoveLastAppended(f.imagens, BlankImage);
  }

  datatype ImageField = Url | Descricao | Creditos

  /** Typing into one field of the `index`-th image. */
  function SetImageField(f: LessonForm, index: nat, field: ImageField, text: string): (g: LessonForm)
    requires index < |f.imagens|
    ensures |g.imagens| == |f.imagens|
    ensures forall k :: 0 <= k < |f.imagens| && k != index ==> g.imagens[k] == f.imagens[k]
    ensures var old_ := f.imagens[index]; var new_ := g.imagens[index];
      && (field == Url ==> new_ == old_.(url := text))
      && (field == Descricao ==> new_ == old_.(descricao := text))
      && (field == Creditos ==> new_ == old_.(creditos := text))
    ensures g == f.(imagens := g.imagens)
  {
    var img := f.imagens[index];
    var changed := match field
      case Url => img.(url := text)
      case Descricao => img.(descricao := text)
      case Creditos => img.(creditos := text);
    f.(imagens := f.imagens[index := changed])
  }

  // ---------------------------------------------------------------------------
  // The page

  datatype View = ListView | WizardView | EditView

  datatype Message = NoMessage | Success(text: string) | Failure(text: string)

  /** What a submission asks the database to write. */
  datatype Write = Created(row: NewLesson) | Updated(lessonId: int, form: LessonForm)

  /** The number of wizard steps; the last one submits. */
  const StepCount: int := 5

  class LessonWizard {
    var view: View
    var step: int
    var form: LessonForm
    var editing: Option<Lesson>
    var saving: bool
    var message: Message

    /** The step shown is one of the five. */
    predicate Valid()
      reads this
    {
      0 <= step < StepCount
    }

    constructor ()
      ensures Valid()
      ensures view == ListView && step == 0 && form == EmptyForm && editing.None?
      ensures !saving && message == NoMessage
    {
      view := ListView;
      step := 0;
      form := EmptyForm;
      editing := None;
      saving := false;
      message := NoMessage;
    }

    /** `handleStartCreate`: a blank form at the first step. */
    method StartCreate()
      modifies this
      ensures view == WizardView && step == 0 && form == EmptyForm && editing.None?
      ensures saving == old(saving) && message == old(message)
      ensures Valid()
    {
      form := EmptyForm;
      step := 0;
      editing := None;
      view := WizardView;
    }

    /** `handleEdit(lesson)`: the lesson's form, straight at the content step. */
    method Edit(l: Lesson)
      modifies this
      ensures editing == Some(l) && form == EditForm(l) && step == StepCount - 1 && view == EditView
      ensures saving == old(saving) && message == old(message)
      ensures Valid()
    {
      editing := Some(l);
      form := EditForm(l);
      step := 4;
      view := EditView;
    }

    /** The form inputs of the five steps: the guardian, the grade group, the
        unit, the position, the title and the content; each sets its field and
        keeps the rest of the form. */
    method SelectGuardian(id: int)
      modifies this
      ensures form == old(form).(guardianId := Some(id))
      ensures view == old(view) && step == old(step) && editing == old(editing)
      ensures saving == old(saving) && message == old(message)
    {
      form := form.(guardianId := Some(id));
    }

    method SelectSeries(value: string)
      modifies this
      ensures form == old(form).(grupoSerie := value)
      ensures view == old(view) && step == old(step) && editing == old(editing)
      ensures saving == old(saving) && message == old(message)
    {
      form := form.(grupoSerie := value);
    }

    method SelectUnit(value: int)
      modifies this
      ensures form == old(form).(unidade := value)
      ensures view == old(view) && step == old(step) && editing == old(editing)
      ensures saving == old(saving) && message == old(message)
    {
      form := form.(unidade := value);
    }

    method SetPosition(value: int)
      modifies this
      ensures form == old(form).(ordem := value)
      ensures view == old(view) && step == old(step) && editing == old(editing)
      ensures saving == old(saving) && message == old(message)
    {
      form := form.(ordem := value);
    }

    method SetTitulo(text: string)
      modifies this
      ensures form == old(form).(titulo := text)
      ensures view == old(view) && step == old(step) && editing == old(editing)
      ensures saving == old(saving) && message == old(message)
    {
      form := form.(titulo := text);
    }

    method SetConteudo(text: string)
      modifies this
      ensures form == old(form).(conteudo := text)
      ensures view == old(view) && step == old(step) && editing == old(editing)
      ensures saving == old(saving) && message == old(message)
    {
      form := form.(conteudo := text);
    }

    /** `handleCancel`: back to the list, nothing being edited, first step. */
    method Cancel()
      modifies this
      ensures view == ListView && editing.None? && step == 0
      ensures form == old(form) && saving == old(saving) && message == old(message)
      ensures Valid()
    {
      view := ListView;
      editing := None;
      step := 0;
    }

    /** `handleBack`: one step back, never before the first. */
    method Back()
      requires Valid()
      modifies this
      ensures step == if old(step) > 0 then old(step) - 1 else 0
      ensures view == old(view) && form == old(form) && editing == old(editing)
      ensures saving == old(saving) && message == old(message)
      ensures Valid()
    {
      if step > 0 {
        step := step - 1;
      }
    }

    /** `handleNext`: one step forward, or on the last step the submission.
        `writeError` is the error the database reports, if any. The write asked
        for is returned: an update of the whole form when editing, otherwise
        `createLesson`'s insert. */
    method Next(writeError: Option<string>) returns (w: Option<Write>)
      requires Valid()
      modifies this
      ensures Valid()
      ensures form == old(form)
      ensures saving == if old(step) < StepCount - 1 then old(saving) else false
      ensures old(step) < StepCount - 1 ==>
        && step == old(step) + 1 && w.None?
        && view == old(view) && editing == old(editing) && message == old(message)
      ensures old(step) == StepCount - 1 ==>
        && step == old(step)
        && w == Some(if old(editing).Some? then Updated(old(editing).value.id, old(form)) else Created(CreateLesson(old(form))))
        && (writeError.Some? ==> message == Failure(writeError.value) && view == old(view) && editing == old(editing))
        && (writeError.None? ==> message.Success? && view == ListView && editing.None?)
    {
      if step < StepCount - 1 {
        step := step + 1;
        return None;
      }
      saving := true;
      message := NoMessage;
      if editing.Some? {
        w := Some(Updated(editing.value.id, form));
        if writeError.None? {
          message := Success("Aula atualizada com sucesso!");
        }
      } else {
        w := Some(Created(CreateLesson(form)));
        if writeError.None? {
          message := Success("Aula criada com sucesso!");
        }
      }
      if writeError.Some? {
        message := Failure(writeError.value);
      } else {
        view := ListView;
        editing := None;
      }
      saving := false;
    }

    /** `handleDelete(lessonId)`: nothing unless the admin confirms; then the
        deletion is asked for and its outcome shown. Returns whether it was asked
        for. */
    method Delete(confirmed: bool, deleteError: Option<string>) returns (asked: bool)
      modifies this
      ensures asked == confirmed
      ensures !confirmed ==> message == old(message)
      ensures confirmed && deleteError.Some? ==> message == Failure("Erro ao excluir: " + deleteError.value)
      ensures confirmed && deleteError.None? ==> message == Success("Aula excluída com sucesso!")
      ensures view == old(view) && step == old(step) && form == old(form)
      ensures editing == old(editing) && saving == old(saving)
    {
      if !confirmed {
        return false;
      }
      if deleteError.Some? {
        message := Failure("Erro ao excluir: " + deleteError.value);
      } else {
        message := Success("Aula excluída com sucesso!");
      }
      return true;
    }
  }
}

/** Lessons and lesson completion (src/hooks/useLessons.js): the learner's lesson
    list, the insert an administrator's form turns into, and the completed-lessons
    table that `markLessonCompleted` checks and then inserts into. */
module Lessons {
  import opened Common

  /** An image attached to a lesson. */
  datatype Image = Image(url: string, descricao: string, creditos: string)

  /** A row of the `lessons` table; null columns read as `None`. */
  datatype Lesson = Lesson(
    id: int,
    guardianId: int,
    titulo: string,
    conteudo: string,
    ordem: int,
    ativo: bool,
    grupoSerie: Option<string>,
    unidade: Option<int>,
    createdAt: int,
    videoUrls: Option<seq<string>>,
    imagens: Option<seq<Image>>)

  // ---------------------------------------------------------------------------
  // fetchLessons

  function Ordem(l: Lesson): int { l.ordem }

  /** Whether `fetchLessons` selects the row: active, and of the guardian when one
      is given. */
  predicate Listed(guardianId: Option<int>, l: Lesson)
  {
    l.ativo && (guardianId.Some? ==> l.guardianId == guardianId.value)
  }

  /** `fetchLessons`: the active lessons, of one guardian when one is given, by
      ascending `ordem`. */
  function FetchLessons(table: seq<Lesson>, guardianId: Option<int>): (r: seq<Lesson>)
    ensures forall l <- r :: l.ativo
    ensures guardianId.Some? ==> forall l <- r :: l.guardianId == guardianId.value
    ensures SortedBy(r, Ordem)
    ensures multiset(r) == multiset(Filter(table, l => Listed(guardianId, l)))
  {
    var f := Filter(table, l => Listed(guardianId, l));
    var r := SortBy(f, Ordem);
    assert forall l <- r :: l in f by {
      forall l | l in r ensures l in f { assert l in multiset(r); }
    }
    r
  }

  /** Nothing active of the guardian is missing from the list. */
  lemma FetchLessonsComplete(table: seq<Lesson>, guardianId: Option<int>, l: Lesson)
    requires l in table && Listed(guardianId, l)
    ensures l in FetchLessons(table, guardianId)
  {
    var f := Filter(table, l => Listed(guardianId, l));
    assert l in multiset(f);
  }

  // ---------------------------------------------------------------------------
  // createLesson

  /** The lesson form of the administrator's wizard; an unchosen guardian is `None`. */
  datatype LessonForm = LessonForm(
    guardianId: Option<int>,
    grupoSerie: string,
    unidade: int,
    ordem: int,
    titulo: string,
    conteudo: string,
    ativo: Option<bool>,
    videoUrls: seq<string>,
    imagens: seq<Image>)

  /** The columns `createLesson` writes. */
  datatype NewLesson = NewLesson(guardianId: Option<int>, titulo: string, conteudo: string, ordem: int, ativo: bool)

  /** `createLesson`'s insert: guardian, title and content as given, `ordem || 1`,
      `ativo ?? true`. */
  function CreateLesson(form: LessonForm): (row: NewLesson)
    ensures row.guardianId == form.guardianId && row.titulo == form.titulo && row.conteudo == form.conteudo
    ensures row.ordem != 0
    ensures form.ordem != 0 ==> row.ordem == form.ordem
    ensures form.ativo.Some? ==> row.ativo == form.ativo.value
    ensures form.ativo.None? ==> row.ativo
  {
    NewLesson(form.guardianId, form.titulo, form.conteudo,
      if form.ordem != 0 then form.ordem else 1, OrElse(form.ativo, true))
  }

  /** The grade group, unit, videos and images of the form never reach the insert:
      forms that differ only in those give the same row. */
  lemma CreateLessonDropsFields(form: LessonForm, grupoSerie: string, unidade: int,
                                videoUrls: seq<string>, imagens: seq<Image>)
    ensures CreateLesson(form.(grupoSerie := grupoSerie, unidade := unidade,
                               videoUrls := videoUrls, imagens := imagens)) == CreateLesson(form)
  {
  }

  /** The columns an insert that keeps the whole form would write. */
  datatype NewLessonFull = NewLessonFull(
    guardianId: Option<int>, titulo: string, conteudo: string, ordem: int, ativo: bool,
    grupoSerie: string, unidade: int, videoUrls: seq<string>, imagens: seq<Image>)

  /** The insert the wizard evidently intends: the same defaults, and the grade
      group, unit, videos and images of the form as well. */
  function CreateLessonFull(form: LessonForm): (row: NewLessonFull)
    ensures row.grupoSerie == form.grupoSerie && row.unidade == form.unidade
    ensures row.videoUrls == form.videoUrls && row.imagens == form.imagens
    ensures var r := CreateLesson(form);
      r.guardianId == row.guardianId && r.titulo == row.titulo && r.conteudo == row.conteudo
      && r.ordem == row.ordem && r.ativo == row.ativo
  {
    var r := CreateLesson(form);
    NewLessonFull(r.guardianId, r.titulo, r.conteudo, r.ordem, r.ativo,
      form.grupoSerie, form.unidade, form.videoUrls, form.imagens)
  }

  /** Forms giving the same full insert are the same form, up to the `ordem` and
      `ativo` defaults. */
  lemma CreateLessonFullKeepsForm(a: LessonForm, b: LessonForm)
    requires a.ordem != 0 && b.ordem != 0 && a.ativo.Some? && b.ativo.Some?
    requires CreateLessonFull(a) == CreateLessonFull(b)
    ensures a == b
  {
  }

  // ---------------------------------------------------------------------------
  // The completed-lessons table

  /** A row of `completed_lessons`. */
  datatype Completion = Completion(userId: int, lessonId: int)

  predicate IsPair(userId: int, lessonId: int, c: Completion)
  {
    c.userId == userId && c.lessonId == lessonId
  }

  /** The rows recording that the learner completed the lesson. */
  function Matches(rows: seq<Completion>, userId: int, lessonId: int): nat
  {
    Count(rows, c => IsPair(userId, lessonId, c))
  }

  /** `checkLessonCompleted`: false without a learner or when the lookup fails;
      otherwise whether the lookup, which expects at most one row, finds exactly
      one. */
  function CheckLessonCompleted(rows: seq<Completion>, user: Option<int>, lessonId: int, lookupFails: bool): (done: bool)
    ensures done ==> user.Some? && !lookupFails && Completion(user.value, lessonId) in rows
    ensures user.Some? && !lookupFails && Matches(rows, user.value, lessonId) == 1 ==> done
    ensures user.Some? && !lookupFails && Matches(rows, user.value, lessonId) >= 2 ==> !done
  {
    if user.None? || lookupFails then false
    else
      var n := Matches(rows, user.value, lessonId);
      if n == 1 then
        CountPositive(rows, c => IsPair(user.value, lessonId, c));
        true
      else false
  }

  lemma {:induction false} CountPositive<T>(s: seq<T>, p: T -> bool)
    requires Count(s, p) > 0
    ensures exists x <- s :: p(x)
  {
    var last := s[|s| - 1];
    if !p(last) {
      CountPositive(s[..|s| - 1], p);
      var x :| x in s[..|s| - 1] && p(x);
      assert x in s;
    }
  }

  lemma {:induction false} CountZero<T>(s: seq<T>, p: T -> bool)
    requires forall x <- s :: !p(x)
    ensures Count(s, p) == 0
  {
    if s != [] {
      assert s[|s| - 1] in s;
      assert forall x <- s[..|s| - 1] :: x in s;
      CountZero(s[..|s| - 1], p);
    }
  }

  datatype MarkResult = MarkResult(alreadyCompleted: bool, error: Option<string>)

  /** The table and the reply of `markLessonCompleted`. */
  function Mark(rows: seq<Completion>, user: Option<int>, lessonId: int, lookupFails: bool, insertFails: bool)
    : (r: (seq<Completion>, MarkResult))
    ensures r.0 == rows || (user.Some? && r.0 == rows + [Completion(user.value, lessonId)])
    ensures r.0 != rows ==> !r.1.alreadyCompleted && r.1.error.None?
    ensures r.1.alreadyCompleted ==> r.1.error.None?
  {
    if user.None? then (rows, MarkResult(false, Some("Usuário não logado")))
    else if CheckLessonCompleted(rows, user, lessonId, lookupFails) then (rows, MarkResult(true, None))
    else if insertFails then (rows, MarkResult(false, Some("insert failed")))
    else (rows + [Completion(user.value, lessonId)], MarkResult(false, None))
  }

  /** Marking an already completed lesson changes nothing and says so; otherwise a
      successful mark adds exactly the learner-lesson row; without a learner or on
      a failed insert it adds nothing and reports an error. */
  lemma MarkOutcomes(rows: seq<Completion>, user: Option<int>, lessonId: int, lookupFails: bool, insertFails: bool)
    ensures var (after, r) := Mark(rows, user, lessonId, lookupFails, insertFails);
      && (r.alreadyCompleted <==> CheckLessonCompleted(rows, user, lessonId, lookupFails))
      && (r.alreadyCompleted ==> after == rows && r.error.None?)
      && (r.error.Some? ==> after == rows && !r.alreadyCompleted)
      && (!r.alreadyCompleted && r.error.None? ==> user.Some? && after == rows + [Completion(user.value, lessonId)])
      && (user.None? ==> after == rows && r.error.Some?)
  {
  }

  /** A first successful mark of a lesson, followed by a second one, makes the
      second report the lesson as already completed and leave the table alone. */
  lemma MarkTwice(rows: seq<Completion>, userId: int, lessonId: int)
    requires Completion(userId, lessonId) !in rows
    ensures var (once, r1) := Mark(rows, Some(userId), lessonId, false, false);
      var (twice, r2) := Mark(once, Some(userId), lessonId, false, false);
      !r1.alreadyCompleted && r1.error.None? && r2.alreadyCompleted && twice == once
  {
    var p := (c: Completion) => IsPair(userId, lessonId, c);
    assert forall c <- rows :: !p(c);
    CountZero(rows, p);
    var c := Completion(userId, lessonId);
    CountSnoc(rows, c, p);
  }

  /** The `completed_lessons` table as the page sees it, with the signed-in learner. */
  class CompletionStore {
    var user: Option<int>
    var rows: seq<Completion>

    constructor (user: Option<int>, rows: seq<Completion>)
      ensures this.user == user && this.rows == rows
    {
      this.user := user;
      this.rows := rows;
    }

    /** `markLessonCompleted(lessonId)`; `lookupFails` and `insertFails` say whether
        the check's read and the insert fail. */
    method MarkLessonCompleted(lessonId: int, lookupFails: bool, insertFails: bool) returns (r: MarkResult)
      modifies this
      ensures user == old(user)
      ensures (rows, r) == Mark(old(rows), user, lessonId, lookupFails, insertFails)
    {
      if user.None? {
        return MarkResult(false, Some("Usuário não logado"));
      }
      var already := CheckLessonCompleted(rows, user, lessonId, lookupFails);
      if already {
        return MarkResult(true, None);
      }
      if insertFails {
        return MarkResult(false, Some("insert failed"));
      }
      rows := rows + [Completion(user.value, lessonId)];
      r := MarkResult(false, None);
    }
  }
}

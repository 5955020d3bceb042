/** The learner's dashboard (src/pages/Dashboard.jsx): which lesson to continue
    with, how many lessons each guardian has, which guardians the carousel shows,
    and how the carousel advances on its own. */
module Dashboard {
  import opened Common
  import opened Fragments
  import opened Lessons

  // ---------------------------------------------------------------------------
  // Grade filter

  /** `profile.grupo_serie || 'todos'` */
  function UserSerie(grupoSerie: Option<string>): (s: string)
    ensures s != []
  {
    match grupoSerie
    case Some(g) => if g != [] then g else "todos"
    case None => "todos"
  }

  /** The grade filter of the lesson queries: none for `'todos'`, otherwise the
      lesson's group must be the learner's group or `'todos'`. */
  predicate GradeMatches(userSerie: string, l: Lesson)
    ensures userSerie == "todos" ==> GradeMatches(userSerie, l)
    ensures l.grupoSerie == Some("todos") ==> GradeMatches(userSerie, l)
    ensures l.grupoSerie.None? ==> (GradeMatches(userSerie, l) <==> userSerie == "todos")
  {
    userSerie == "todos" || l.grupoSerie == Some(userSerie) || l.grupoSerie == Some("todos")
  }

  /** A lesson meant for every grade passes the filter for every learner. */
  lemma GradeMatchesAll(userSerie: string, l: Lesson)
    requires l.grupoSerie == Some("todos")
    ensures GradeMatches(userSerie, l)
  {
  }

  /** A learner without a group, or with an empty one, sees every grade. */
  lemma NoGroupNoFilter(grupoSerie: Option<string>, l: Lesson)
    requires grupoSerie.None? || grupoSerie == Some([])
    ensures GradeMatches(UserSerie(grupoSerie), l)
  {
  }

  // ---------------------------------------------------------------------------
  // fetchNextLesson

  /** The lesson a query with `.order(key).limit(1)` returns: one with the smallest
      key, the earliest in table order among equals. */
  function FirstBy(s: seq<Lesson>, key: Lesson -> int): (r: Option<Lesson>)
    ensures r.None? <==> s == []
    ensures r.Some? ==> r.value in s && forall l <- s :: key(r.value) <= key(l)
  {
    if s == [] then None
    else
      var sorted := SortBy(s, key);
      assert sorted[0] in multiset(s);
      assert forall l <- s :: key(sorted[0]) <= key(l) by {
        forall l | l in s ensures key(sorted[0]) <= key(l) {
          assert l in multiset(sorted);
          var k :| 0 <= k < |sorted| && sorted[k] == l;
        }
      }
      Some(sorted[0])
  }

  function CreatedAt(l: Lesson): int { l.createdAt }

  /** The guardian ids of the unlocked fragments that have a guardian. */
  function UnlockedIds(frs: seq<FragmentView>): (ids: seq<int>)
    ensures forall g :: g in ids <==> exists f <- frs :: f.desbloqueado && f.fragment.guardian.Some? && f.fragment.guardian.value.id == g
  {
    if frs == [] then []
    else
      var f := frs[0];
      var rest := UnlockedIds(frs[1..]);
      assert forall x :: x in frs <==> x == f || x in frs[1..];
      if f.desbloqueado && f.fragment.guardian.Some? then [f.fragment.guardian.value.id] + rest else rest
  }

  /** Step 2: the next active lesson of the last completed lesson's guardian. */
  predicate NextInGuardian(last: Lesson, unlocked: seq<int>, serie: string, l: Lesson)
    ensures NextInGuardian(last, unlocked, serie, l) ==> l != last && !FirstOfOtherGuardian(last, unlocked, serie, l)
  {
    l.guardianId == last.guardianId && l.guardianId in unlocked && l.ordem > last.ordem
    && l.ativo && GradeMatches(serie, l)
  }

  /** Step 3: the first lesson of another unlocked guardian. */
  predicate FirstOfOtherGuardian(last: Lesson, unlocked: seq<int>, serie: string, l: Lesson)
    ensures FirstOfOtherGuardian(last, unlocked, serie, l) ==> l != last && FirstOfAnyGuardian(unlocked, serie, l)
  {
    l.guardianId in unlocked && l.guardianId != last.guardianId && l.ordem == 1
    && l.ativo && GradeMatches(serie, l)
  }

  /** Step 5: the first lesson of any unlocked guardian. */
  predicate FirstOfAnyGuardian(unlocked: seq<int>, serie: string, l: Lesson)
  {
    l.guardianId in unlocked && l.ordem == 1 && l.ativo && GradeMatches(serie, l)
  }

  /** Steps 3 and 5 ask for the same lessons, except that step 3 leaves out the
      guardian of the last completed lesson. */
  lemma OtherGuardianIffAnyGuardian(last: Lesson, unlocked: seq<int>, serie: string, l: Lesson)
    ensures FirstOfOtherGuardian(last, unlocked, serie, l)
      <==> FirstOfAnyGuardian(unlocked, serie, l) && l.guardianId != last.guardianId
  {
  }

  /** What the dashboard offers next: nothing, the note that everything is done,
      or a lesson. */
  datatype Next = NoLesson | Completed | LessonOf(lesson: Lesson)

  /** The fallback chain of `fetchNextLesson` for a signed-in learner with a
      profile. `last` is the most recently completed lesson, if any. */
  function NextLesson(frs: seq<FragmentView>, grupoSerie: Option<string>, last: Option<Lesson>, table: seq<Lesson>): (n: Next)
    ensures UnlockedIds(frs) == [] ==> n == NoLesson
    ensures n == Completed ==> last.Some?
    ensures n.LessonOf? ==>
      n.lesson in table && n.lesson.ativo && n.lesson.guardianId in UnlockedIds(frs)
      && GradeMatches(UserSerie(grupoSerie), n.lesson)
    ensures n.LessonOf? && last.None? ==> n.lesson.ordem == 1
  {
    var unlocked := UnlockedIds(frs);
    var serie := UserSerie(grupoSerie);
    if unlocked == [] then NoLesson
    else if last.Some? then
      match FirstBy(Filter(table, l => NextInGuardian(last.value, unlocked, serie, l)), Ordem)
      case Some(next) => LessonOf(next)
      case None =>
        match FirstBy(Filter(table, l => FirstOfOtherGuardian(last.value, unlocked, serie, l)), CreatedAt)
        case Some(other) => LessonOf(other)
        case None => Completed
    else
      match FirstBy(Filter(table, l => FirstOfAnyGuardian(unlocked, serie, l)), CreatedAt)
      case Some(first) => LessonOf(first)
      case None => NoLesson
  }

  /** Whether some fragment opens the guardian with this id. */
  predicate GuardianUnlocked(frs: seq<FragmentView>, g: int)
  {
    exists f <- frs :: f.desbloqueado && f.fragment.guardian.Some? && f.fragment.guardian.value.id == g
  }

  /** With no unlocked guardian there is no next lesson. */
  lemma NoUnlockedNoLesson(frs: seq<FragmentView>, grupoSerie: Option<string>, last: Option<Lesson>, table: seq<Lesson>)
    requires forall f <- frs :: !f.desbloqueado || f.fragment.guardian.None?
    ensures NextLesson(frs, grupoSerie, last, table) == NoLesson
  {
    NoneUnlocked(frs);
  }

  lemma {:induction false} NoneUnlocked(frs: seq<FragmentView>)
    requires forall f <- frs :: !f.desbloqueado || f.fragment.guardian.None?
    ensures UnlockedIds(frs) == []
  {
    if frs != [] {
      assert frs[0] in frs;
      assert forall f <- frs[1..] :: f in frs;
      NoneUnlocked(frs[1..]);
    }
  }

  /** Every lesson offered is an active lesson of the table, of an unlocked
      guardian, and passes the grade filter. */
  lemma OfferedLessonIsOpen(frs: seq<FragmentView>, grupoSerie: Option<string>, last: Option<Lesson>, table: seq<Lesson>)
    requires NextLesson(frs, grupoSerie, last, table).LessonOf?
    ensures var l := NextLesson(frs, grupoSerie, last, table).lesson;
      l in table && l.ativo && GuardianUnlocked(frs, l.guardianId) && GradeMatches(UserSerie(grupoSerie), l)
  {
  }

  /** With history, a lesson of the same guardian is preferred: when one with a
      larger position exists the offer is such a lesson with the smallest such
      position. */
  lemma ContinueSameGuardian(frs: seq<FragmentView>, grupoSerie: Option<string>, last: Lesson, table: seq<Lesson>, l: Lesson)
    requires l in table && NextInGuardian(last, UnlockedIds(frs), UserSerie(grupoSerie), l)
    ensures var n := NextLesson(frs, grupoSerie, Some(last), table);
      && n.LessonOf?
      && n.lesson.guardianId == last.guardianId && n.lesson.ordem > last.ordem
      && n.lesson.ordem <= l.ordem
  {
    var unlocked := UnlockedIds(frs);
    var serie := UserSerie(grupoSerie);
    assert unlocked != [] by { assert l.guardianId in unlocked; }
    var f := Filter(table, x => NextInGuardian(last, unlocked, serie, x));
    assert l in f;
  }

  /** With history but nothing left in the same guardian, the offer is a first
      lesson of another unlocked guardian, the earliest created of them. */
  lemma OtherGuardianFallback(frs: seq<FragmentView>, grupoSerie: Option<string>, last: Lesson, table: seq<Lesson>, o: Lesson)
    requires forall l <- table :: !NextInGuardian(last, UnlockedIds(frs), UserSerie(grupoSerie), l)
    requires o in table && FirstOfOtherGuardian(last, UnlockedIds(frs), UserSerie(grupoSerie), o)
    ensures var n := NextLesson(frs, grupoSerie, Some(last), table);
      && n.LessonOf?
      && n.lesson.guardianId != last.guardianId && n.lesson.ordem == 1
      && n.lesson.createdAt <= o.createdAt
  {
    var unlocked := UnlockedIds(frs);
    var serie := UserSerie(grupoSerie);
    assert unlocked != [] by { assert o.guardianId in unlocked; }
    FilterNone(table, x => NextInGuardian(last, unlocked, serie, x));
    var f2 := Filter(table, x => FirstOfOtherGuardian(last, unlocked, serie, x));
    assert o in f2;
  }

  /** `'completed'` appears only for a learner with history, and then exactly when
      neither the same guardian nor another unlocked guardian has a lesson to
      offer. */
  lemma CompletedIff(frs: seq<FragmentView>, grupoSerie: Option<string>, last: Option<Lesson>, table: seq<Lesson>)
    ensures NextLesson(frs, grupoSerie, last, table) == Completed <==>
      && last.Some?
      && UnlockedIds(frs) != []
      && (forall l <- table :: !NextInGuardian(last.value, UnlockedIds(frs), UserSerie(grupoSerie), l))
      && (forall l <- table :: !FirstOfOtherGuardian(last.value, UnlockedIds(frs), UserSerie(grupoSerie), l))
  {
    if last.Some? {
      var unlocked := UnlockedIds(frs);
      var serie := UserSerie(grupoSerie);
      var f1 := Filter(table, l => NextInGuardian(last.value, unlocked, serie, l));
      var f2 := Filter(table, l => FirstOfOtherGuardian(last.value, unlocked, serie, l));
      if f1 != [] { assert f1[0] in f1; }
      if f2 != [] { assert f2[0] in f2; }
    }
  }

  /** Without history the offer is the earliest created first lesson of an unlocked
      guardian, or nothing; never `'completed'`. */
  lemma NewLearnerFirstLesson(frs: seq<FragmentView>, grupoSerie: Option<string>, table: seq<Lesson>)
    ensures var n := NextLesson(frs, grupoSerie, None, table);
      && n != Completed
      && (n.LessonOf? ==>
            && n.lesson.ordem == 1
            && (forall l <- table :: FirstOfAnyGuardian(UnlockedIds(frs), UserSerie(grupoSerie), l)
                 ==> n.lesson.createdAt <= l.createdAt))
      && (n == NoLesson <==>
            || UnlockedIds(frs) == []
            || (forall l <- table :: !FirstOfAnyGuardian(UnlockedIds(frs), UserSerie(grupoSerie), l)))
  {
    var unlocked := UnlockedIds(frs);
    var serie := UserSerie(grupoSerie);
    var f := Filter(table, l => FirstOfAnyGuardian(unlocked, serie, l));
    if f != [] { assert f[0] in f; }
  }

  /** The dashboard's next-lesson state. */
  class NextLessonState {
    var nextLesson: Next

    constructor ()
      ensures nextLesson == NoLesson
    {
      nextLesson := NoLesson;
    }

    /** `fetchNextLesson`: nothing happens without a learner or a profile. */
    method FetchNextLesson(signedIn: bool, profile: Option<Option<string>>, frs: seq<FragmentView>,
                           last: Option<Lesson>, table: seq<Lesson>)
      modifies this
      ensures !signedIn || profile.None? ==> nextLesson == old(nextLesson)
      ensures signedIn && profile.Some? ==> nextLesson == NextLesson(frs, profile.value, last, table)
    {
      if !signedIn || profile.None? {
        return;
      }
      var unlocked := UnlockedIds(frs);
      if |unlocked| == 0 {
        nextLesson := NoLesson;
        return;
      }
      var serie := UserSerie(profile.value);
      if last.Some? {
        var next := FirstBy(Filter(table, l => NextInGuardian(last.value, unlocked, serie, l)), Ordem);
        if next.Some? {
          nextLesson := LessonOf(next.value);
          return;
        }
        var other := FirstBy(Filter(table, l => FirstOfOtherGuardian(last.value, unlocked, serie, l)), CreatedAt);
        if other.Some? {
          nextLesson := LessonOf(other.value);
          return;
        }
        nextLesson := Completed;
        return;
      }
      var first := FirstBy(Filter(table, l => FirstOfAnyGuardian(unlocked, serie, l)), CreatedAt);
      if first.Some? {
        nextLesson := LessonOf(first.value);
      } else {
        nextLesson := NoLesson;
      }
    }
  }

  // ---------------------------------------------------------------------------
  // Lesson counts, unlocked guardians and the carousel

  function Get(m: map<int, nat>, k: int): nat
  {
    if k in m then m[k] else 0
  }

  /** `lessonsCount`: the number of lesson rows of each guardian. */
  method LessonsCount(guardianIds: seq<int>) returns (counts: map<int, nat>)
    ensures forall g :: Get(counts, g) == multiset(guardianIds)[g]
  {
    counts := map[];
    var i := 0;
    while i < |guardianIds|
      invariant 0 <= i <= |guardianIds|
      invariant forall g :: Get(counts, g) == multiset(guardianIds[..i])[g]
    {
      var g := guardianIds[i];
      assert guardianIds[..i + 1] == guardianIds[..i] + [g];
      counts := counts[g := Get(counts, g) + 1];
      i := i + 1;
    }
    assert guardianIds[..i] == guardianIds;
  }

  /** The unlocked guardians and, per guardian, the quantity of the last unlocked
      fragment naming it (a later fragment overwrites an earlier one). */
  method UnlockedGuardians(frs: seq<FragmentView>) returns (ids: set<int>, progress: map<int, int>)
    ensures forall g :: g in ids <==> GuardianUnlocked(frs, g)
    ensures progress.Keys == ids
    ensures forall g <- progress :: exists i :: LastOpener(frs, |frs|, i, g) && progress[g] == frs[i].quantidadeAtual
  {
    ids := {};
    progress := map[];
    var i := 0;
    while i < |frs|
      invariant 0 <= i <= |frs|
      invariant forall g :: g in ids <==> exists k :: 0 <= k < i && Opens(frs[k], g)
      invariant progress.Keys == ids
      invariant forall g <- progress :: exists k :: LastOpener(frs, i, k, g) && progress[g] == frs[k].quantidadeAtual
    {
      var f := frs[i];
      if f.desbloqueado && f.fragment.guardian.Some? {
        var g := f.fragment.guardian.value.id;
        ids := ids + {g};
        progress := progress[g := f.quantidadeAtual];
        assert Opens(frs[i], g);
      }
      i := i + 1;
    }
    forall g ensures g in ids <==> GuardianUnlocked(frs, g) {
      if g in ids {
        var k :| 0 <= k < |frs| && Opens(frs[k], g);
        assert frs[k] in frs;
      }
      if GuardianUnlocked(frs, g) {
        var f :| f in frs && Opens(f, g);
        var k :| 0 <= k < |frs| && frs[k] == f;
      }
    }
  }

  /** Among the first `n` fragments, the `k`-th is the last to open guardian `g`. */
  predicate LastOpener(frs: seq<FragmentView>, n: nat, k: int, g: int)
    requires n <= |frs|
  {
    0 <= k < n && Opens(frs[k], g) && forall j :: k < j < n ==> !Opens(frs[j], g)
  }

  /** The fragment opens guardian `g`. */
  predicate Opens(f: FragmentView, g: int)
  {
    f.desbloqueado && f.fragment.guardian.Some? && f.fragment.guardian.value.id == g
  }

  /** `availableGuardians`: the guardians, in fetched order, that are unlocked and
      have at least one lesson. */
  function AvailableGuardians(guardians: seq<Guardian>, unlocked: set<int>, counts: map<int, nat>): (r: seq<Guardian>)
    ensures forall g <- r :: g in guardians && g.id in unlocked && Get(counts, g.id) > 0
    ensures forall g <- guardians :: g.id in unlocked && Get(counts, g.id) > 0 ==> g in r
    ensures |r| <= |guardians|
  {
    Filter(guardians, (g: Guardian) => g.id in unlocked && Get(counts, g.id) > 0)
  }

  /** The carousel keeps the fetched order: the guardians of two lists, one after
      the other, are those of the first list followed by those of the second. */
  lemma AvailableGuardiansAppend(a: seq<Guardian>, b: seq<Guardian>, unlocked: set<int>, counts: map<int, nat>)
    ensures AvailableGuardians(a + b, unlocked, counts)
      == AvailableGuardians(a, unlocked, counts) + AvailableGuardians(b, unlocked, counts)
  {
    FilterAppend(a + [], b, (g: Guardian) => g.id in unlocked && Get(counts, g.id) > 0);
    assert a + [] == a;
  }

  /** The automatic carousel step: with more than one guardian the slide advances
      cyclically, otherwise no timer runs and the slide stays. */
  function AutoSlide(current: nat, count: nat): (next: nat)
    ensures count > 1 ==> next < count
    ensures count <= 1 ==> next == current
    ensures count > 1 && current + 1 < count ==> next == current + 1
    ensures count > 1 && current == count - 1 ==> next == 0
  {
    if count <= 1 then current else (current + 1) % count
  }

  function AutoSlides(current: nat, count: nat, steps: nat): nat
  {
    if steps == 0 then current else AutoSlide(AutoSlides(current, count, steps - 1), count)
  }

  /** From the first slide, `k` timer ticks show slide `k mod count`: every
      available guardian comes round in turn. */
  lemma {:induction false} AutoSlidesCycle(count: nat, k: nat)
    requires count > 1
    ensures AutoSlides(0, count, k) == k % count
  {
    if k > 0 {
      AutoSlidesCycle(count, k - 1);
      ModSuccessor(k - 1, count);
    }
  }

  lemma ModSuccessor(a: nat, n: nat)
    requires n > 1
    ensures (a + 1) % n == (if a % n + 1 < n then a % n + 1 else 0)
  {
    var q, r := a / n, a % n;
    assert a == q * n + r;
    if r + 1 < n {
      ModUnique(a + 1, n, q, r + 1);
    } else {
      ModUnique(a + 1, n, q + 1, 0);
    }
  }

  /** The remainder of `a` by `n` is the `r` of any `a == q * n + r` with
      `0 <= r < n`. */
  lemma ModUnique(a: int, n: int, q: int, r: int)
    requires n > 0 && 0 <= r < n && a == q * n + r
    ensures a % n == r
  {
    var q0, r0 := a / n, a % n;
    var d := q - q0;
    assert d * n == r0 - r;
  }
}

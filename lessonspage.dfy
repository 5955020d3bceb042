/** A guardian's lesson list (src/pages/Lessons.jsx): the area colours, the
    grouping of the lessons by unit, the order of the units and the lesson
    cards. The area colour lookup is shared with the lesson screen. */
module LessonsPage {
  import opened Common
  import opened Lessons
  import DashboardComponents

  // ---------------------------------------------------------------------------
  // Area colours

  /** The keys of `AREA_COLORS`, in the order `Object.keys` lists them. */
  const ColorKeys: seq<string> := ["português", "matemática", "humanas", "natureza"]

  function KeyColors(i: nat): DashboardComponents.Colors
    requires i < |ColorKeys|
  {
    match i
    case 0 => DashboardComponents.Colors("#3B82F6", "#DBEAFE")
    case 1 => DashboardComponents.Colors("#EF4444", "#FEE2E2")
    case 2 => DashboardComponents.Colors("#F97316", "#FFEDD5")
    case _ => DashboardComponents.Colors("#22C55E", "#DCFCE7")
  }

  const DefaultColors := DashboardComponents.Colors("#6366F1", "#E0E7FF")

  /** `getAreaColor(area)`: the colours of the first key the lower-cased area
      contains; the indigo default for an undefined area or one containing no
      key. */
  function AreaColor(area: Option<string>): (c: DashboardComponents.Colors)
    ensures area.None? ==> c == DefaultColors
    ensures area.Some? ==> match FindIndex(ColorKeys, k => Includes(ToLower(area.value), k))
      case Some(i) => c == KeyColors(i) && forall j :: 0 <= j < i ==> !Includes(ToLower(area.value), ColorKeys[j])
      case None => c == DefaultColors && forall j :: 0 <= j < |ColorKeys| ==> !Includes(ToLower(area.value), ColorKeys[j])
  {
    if area.None? then DefaultColors
    else
      match FindIndex(ColorKeys, k => Includes(ToLower(area.value), k))
      case Some(i) => KeyColors(i)
      case None => DefaultColors
  }

  /** The colour lookup ignores how the area is capitalised. */
  lemma AreaColorIgnoresCase(area: string)
    ensures AreaColor(Some(ToLower(area))) == AreaColor(Some(area))
  {
    ToLowerIdempotent(area);
  }

  // ---------------------------------------------------------------------------
  // Units

  /** `lesson.unidade || 1`: a missing unit, or unit 0, is unit 1. */
  function UnitOf(lesson: Lesson): (u: int)
    ensures u != 0
    ensures lesson.unidade.Some? && lesson.unidade.value != 0 ==> u == lesson.unidade.value
  {
    if lesson.unidade.None? || lesson.unidade.value == 0 then 1 else lesson.unidade.value
  }

  /** The groups `units` holds after the first lessons have been pushed, one
      after the other, onto the array of their unit. */
  function Units(lessons: seq<Lesson>): (units: map<int, seq<Lesson>>)
    ensures forall u :: u in units ==> units[u] != [] && forall l <- units[u] :: l in lessons && UnitOf(l) == u
  {
    if lessons == [] then map[]
    else
      var acc := Units(lessons[..|lessons| - 1]);
      var lesson := lessons[|lessons| - 1];
      var unit := UnitOf(lesson);
      acc[unit := (if unit in acc then acc[unit] else []) + [lesson]]
  }

  /** The `units` reduce: each lesson is pushed onto the array of its unit,
      the array created on the unit's first lesson. */
  method GroupByUnit(lessons: seq<Lesson>) returns (units: map<int, seq<Lesson>>)
    ensures units == Units(lessons)
  {
    units := map[];
    var i := 0;
    while i < |lessons|
      invariant 0 <= i <= |lessons|
      invariant units == Units(lessons[..i])
    {
      var lesson := lessons[i];
      var unit := UnitOf(lesson);
      if unit !in units {
        units := units[unit := []];
      }
      units := units[unit := units[unit] + [lesson]];
      assert lessons[..i + 1][..i] == lessons[..i];
      i := i + 1;
    }
    assert lessons[..i] == lessons;
  }

  /** Each unit's group is the list of that unit's lessons in their input
      order, and a unit has a group exactly when one of its lessons is listed:
      every lesson lands in the one group of its own unit. */
  lemma {:induction false} UnitsAreFilters(lessons: seq<Lesson>)
    ensures forall u :: u in Units(lessons) <==> exists l <- lessons :: UnitOf(l) == u
    ensures forall u :: u in Units(lessons) ==> Units(lessons)[u] == Filter(lessons, l => UnitOf(l) == u)
  {
    if lessons != [] {
      var init := lessons[..|lessons| - 1];
      var last := lessons[|lessons| - 1];
      assert lessons == init + [last];
      UnitsAreFilters(init);
      forall u ensures u in Units(lessons) <==> exists l <- lessons :: UnitOf(l) == u {
        if u in Units(lessons) && u != UnitOf(last) {
          assert u in Units(init);
          var l :| l in init && UnitOf(l) == u;
          assert l in lessons;
        }
        if u == UnitOf(last) {
          assert last in lessons;
        }
      }
      forall u | u in Units(lessons) ensures Units(lessons)[u] == Filter(lessons, l => UnitOf(l) == u) {
        var p := l => UnitOf(l) == u;
        FilterAppend(init, [last], p);
        assert Filter([last], p) == (if p(last) then [last] else []) by {
          FilterCons([last], p);
          assert [last][1..] == [];
        }
        if u !in Units(init) {
          FilterNone(init, p);
        }
      }
    }
  }

  /** A lesson with no unit, or unit 0, is listed under unit 1. */
  lemma NoUnitMeansUnitOne(lessons: seq<Lesson>, l: Lesson)
    requires l in lessons && (l.unidade.None? || l.unidade == Some(0))
    ensures 1 in Units(lessons) && l in Units(lessons)[1]
  {
    UnitsAreFilters(lessons);
  }

  /** `Object.keys(units).sort((a, b) => a - b)`: the units, each once, in
      ascending numeric order. */
  function UnitOrder(lessons: seq<Lesson>): (order: seq<int>)
    ensures forall u :: u in order <==> u in Units(lessons)
    ensures forall i, j :: 0 <= i < j < |order| ==> order[i] < order[j]
  {
    UnitsAreFilters(lessons);
    var seen := Distinct(UnitList(lessons));
    var order := SortBy(seen, u => u);
    forall u ensures u in order <==> u in seen {
      assert u in order <==> u in multiset(order);
    }
    forall i, j | 0 <= i < j < |order| ensures order[i] < order[j] {
      assert order[i] <= order[j];
      SortedDistinct(order, seen, i, j);
    }
    order
  }

  /** The unit of every lesson, in input order. */
  function UnitList(lessons: seq<Lesson>): (r: seq<int>)
    ensures forall u :: u in r <==> exists l <- lessons :: UnitOf(l) == u
  {
    if lessons == [] then []
    else
      assert lessons == [lessons[0]] + lessons[1..];
      [UnitOf(lessons[0])] + UnitList(lessons[1..])
  }

  /** A reordering of a list without duplicates has none either. */
  lemma SortedDistinct(order: seq<int>, seen: seq<int>, i: int, j: int)
    requires multiset(order) == multiset(seen) && NoDuplicates(seen)
    requires 0 <= i < j < |order|
    ensures order[i] != order[j]
  {
    if order[i] == order[j] {
      var x := order[i];
      assert multiset(order)[x] >= 2 by {
        assert order == order[..j] + [x] + order[j + 1..];
        assert x in order[..j];
      }
      DistinctOnce(seen, x);
    }
  }

  /** In a list without duplicates every element occurs at most once. */
  lemma {:induction false} DistinctOnce(s: seq<int>, x: int)
    requires NoDuplicates(s)
    ensures multiset(s)[x] <= 1
  {
    if s != [] {
      assert s == [s[0]] + s[1..];
      assert NoDuplicates(s[1..]);
      DistinctOnce(s[1..], x);
      if s[0] == x {
        assert x !in s[1..];
      }
    }
  }

  // ---------------------------------------------------------------------------
  // Lesson cards

  /** What a lesson card shows: whether it is locked, where it links and the
      badge, a lock or the lesson's position in its unit. */
  datatype Card = Card(locked: bool, link: string, badge: Option<nat>)

  /** `LessonCard`: a lesson that is not active is locked, links to `'#'` and
      shows a lock; an active one links to its own page and shows `index + 1`. */
  function LessonCard(lesson: Lesson, index: nat): (c: Card)
    ensures c.locked <==> !lesson.ativo
    ensures c.locked ==> c.link == "#" && c.badge.None?
    ensures !c.locked ==> StartsWith(c.link, "/lesson/") && c.badge == Some(index + 1)
  {
    if !lesson.ativo then Card(true, "#", None)
    else Card(false, "/lesson/" + IntToString(lesson.id), Some(index + 1))
  }

  /** The links of open cards tell the lessons apart, and never read `'#'`. */
  lemma CardLinkNamesLesson(a: Lesson, b: Lesson, i: nat, j: nat)
    requires a.ativo && b.ativo
    ensures LessonCard(a, i).link != "#"
    ensures LessonCard(a, i).link == LessonCard(b, j).link ==> a.id == b.id
  {
    var p := "/lesson/";
    if LessonCard(a, i).link == LessonCard(b, j).link {
      assert (p + IntToString(a.id))[|p|..] == IntToString(a.id);
      assert (p + IntToString(b.id))[|p|..] == IntToString(b.id);
      ParseIntToString(a.id);
      ParseIntToString(b.id);
    }
  }
}

/** The building blocks of the administrator's wizards
    (src/components/admin/AdminComponents.jsx): the guardian colour theme, the
    grade selector that keeps its choice as comma-separated text, the position
    selector, the lesson selector and the step header. */
module AdminComponents {
  import opened Common
  import opened Lessons

  // ---------------------------------------------------------------------------
  // getGuardianTheme

  const ThemeKeys: seq<string> := ["Português", "Matemática", "Humanas", "Natureza"]

  /** `getGuardianTheme(area)`: the theme of the first key the area contains,
      compared with case; the Português theme otherwise. */
  function GetGuardianTheme(area: Option<string>): (key: string)
    ensures key in ThemeKeys
    ensures area.None? ==> key == "Português"
    ensures area.Some? ==> match FindIndex(ThemeKeys, k => Includes(area.value, k))
      case Some(i) => key == ThemeKeys[i] && forall j :: 0 <= j < i ==> !Includes(area.value, ThemeKeys[j])
      case None => key == "Português" && forall j :: 0 <= j < |ThemeKeys| ==> !Includes(area.value, ThemeKeys[j])
  {
    if area.None? then "Português"
    else
      match FindIndex(ThemeKeys, k => Includes(area.value, k))
      case Some(i) => ThemeKeys[i]
      case None => "Português"
  }

  /** Unlike the activity screen, the theme lookup does not lower-case: an area
      written in lower case gets the default theme whatever it names. */
  lemma ThemeIsCaseSensitive(x: string)
    ensures GetGuardianTheme(Some(ToLower(x))) == "Português"
  {
    NoKeyInLower(x);
  }

  /** Every theme key starts with a capital, so none occurs in lower-cased text. */
  lemma NoKeyInLower(x: string)
    ensures forall j :: 0 <= j < |ThemeKeys| ==> !Includes(ToLower(x), ThemeKeys[j])
  {
    CapitalKeyNotInLower(x, "Português");
    CapitalKeyNotInLower(x, "Matemática");
    CapitalKeyNotInLower(x, "Humanas");
    CapitalKeyNotInLower(x, "Natureza");
  }

  // ---------------------------------------------------------------------------
  // SeriesSelector

  /** The values of the grade buttons. */
  const Series: seq<string> := ["6", "7", "8", "9", "todos"]

  predicate IsGrade(s: string) { s != [] && s != "todos" }

  /** `.filter(s => s && s !== 'todos')` */
  function KeepGrades(parts: seq<string>): (r: seq<string>)
    ensures forall p :: p in r <==> p in parts && IsGrade(p)
  {
    if parts == [] then []
    else
      assert parts == [parts[0]] + parts[1..];
      (if IsGrade(parts[0]) then [parts[0]] else []) + KeepGrades(parts[1..])
  }

  lemma {:induction false} KeepGradesAll(parts: seq<string>)
    requires forall p <- parts :: IsGrade(p)
    ensures KeepGrades(parts) == parts
  {
    if parts != [] {
      assert parts[0] in parts;
      assert forall p <- parts[1..] :: p in parts;
      KeepGradesAll(parts[1..]);
      assert [parts[0]] + parts[1..] == parts;
    }
  }

  /** The grades a selection text names, in order. */
  function Grades(selected: string): (gs: seq<string>)
    ensures forall g <- gs :: IsGrade(g) && ',' !in g
  {
    SplitPiecesFree(selected, ',');
    KeepGrades(SplitStr(selected, ","))
  }

  /** `handleToggle(value)` with the current selection text. */
  function HandleToggle(selected: string, value: string, multiple: bool): (r: string)
    ensures value == "todos" ==> r == "todos"
    ensures value != "todos" && (selected == "todos" || !multiple) ==> r == value
    ensures value in Series ==> r != []
  {
    if value == "todos" then "todos"
    else if selected == "todos" then value
    else if multiple then
      var current := Grades(selected);
      if value in current then
        var j := Join(Without(current, value), ",");
        if j == [] then "todos" else j
      else
        assert value != [] ==> Join(current + [value], ",") != [] by {
          if value != [] { JoinEmptyIff(current + [value], ","); }
        }
        Join(current + [value], ",")
    else value
  }

  /** The grades of a joined list of grades are that list. */
  lemma GradesOfJoin(parts: seq<string>)
    requires forall p <- parts :: IsGrade(p) && ',' !in p
    ensures Grades(Join(parts, ",")) == parts
  {
    if parts == [] {
      assert SplitStr([], ",") == [[]];
    } else {
      SplitJoin(parts, ',');
      KeepGradesAll(parts);
    }
  }

  /** In multiple mode a grade button toggles that grade in the list of grades:
      an absent grade is appended, a present one removed; removing the last one
      gives `'todos'`, whose list of grades is empty. */
  lemma ToggleGrades(selected: string, value: string)
    requires IsGrade(value) && ',' !in value
    ensures Grades(HandleToggle(selected, value, true)) == Toggle(Grades(selected), value)
  {
    if selected == "todos" {
      GradesOfTodos();
      GradesOfOne(value);
    } else if value in Grades(selected) {
      RemoveGrade(selected, value);
    } else {
      AddGrade(selected, value);
    }
  }

  /** A single grade names itself. */
  lemma GradesOfOne(value: string)
    requires IsGrade(value) && ',' !in value
    ensures Grades(value) == [value]
  {
    SplitNoSep(value, ',');
    assert [value][1..] == [];
    assert KeepGrades([value]) == [value] + KeepGrades([]);
  }

  lemma AddGrade(selected: string, value: string)
    requires IsGrade(value) && ',' !in value
    requires selected != "todos" && value !in Grades(selected)
    ensures Grades(HandleToggle(selected, value, true)) == Toggle(Grades(selected), value)
  {
    var current := Grades(selected);
    assert HandleToggle(selected, value, true) == Join(current + [value], ",");
    GradesOfJoin(current + [value]);
  }

  /** `'todos'` names no grade. */
  lemma GradesOfTodos()
    ensures Grades("todos") == []
  {
    var t := "todos";
    assert ',' !in t;
    SplitNoSep(t, ',');
    assert KeepGrades([t]) == [];
  }

  lemma RemoveGrade(selected: string, value: string)
    requires IsGrade(value) && ',' !in value
    requires selected != "todos" && value in Grades(selected)
    ensures Grades(HandleToggle(selected, value, true)) == Toggle(Grades(selected), value)
  {
    var rest := Without(Grades(selected), value);
    assert Toggle(Grades(selected), value) == rest;
    GradesOfJoin(rest);
    JoinEmptyIff(rest, ",");
    if rest == [] {
      GradesOfTodos();
    }
  }

  /** Clicking a grade twice gives back the same grades. */
  lemma ToggleTwiceSameGrades(selected: string, value: string)
    requires IsGrade(value) && ',' !in value
    ensures forall g :: g in Grades(HandleToggle(HandleToggle(selected, value, true), value, true)) <==> g in Grades(selected)
  {
    ToggleGrades(selected, value);
    ToggleGrades(HandleToggle(selected, value, true), value);
    ToggleTwice(Grades(selected), value);
  }

  /** `isSelected(value)`: `'todos'` by equality, a grade by substring. */
  predicate IsSelected(selected: Option<string>, value: string)
    ensures IsSelected(selected, value) ==> selected.Some?
    ensures selected == Some(value) ==> IsSelected(selected, value)
    ensures value == "todos" ==> (IsSelected(selected, value) <==> selected == Some("todos"))
  {
    if value == "todos" then selected == Some("todos")
    else selected.Some? && Includes(selected.value, value)
  }

  predicate IsGradeButton(g: string) { g in ["6", "7", "8", "9"] }

  /** For a selection joined from grade buttons, a grade button shows as selected
      exactly when its grade is in the list, and `'todos'` shows no grade as
      selected. */
  lemma IsSelectedIff(gs: seq<string>, g: string)
    requires forall x <- gs :: IsGradeButton(x)
    requires IsGradeButton(g)
    ensures IsSelected(Some(Join(gs, ",")), g) <==> g in gs
    ensures !IsSelected(Some("todos"), g)
  {
    var d := g[0];
    assert g == [d];
    IncludesChar(Join(gs, ","), d);
    CharInJoin(gs, ',', d);
    assert forall x <- gs :: d in x <==> x == g;
    IncludesChar("todos", d);
  }

  // ---------------------------------------------------------------------------
  // PositionSelector

  /** The "−" button: one less, never below 1. */
  function Decrement(value: int): (r: int)
    ensures r >= 1
    ensures value > 1 ==> r == value - 1
    ensures value <= 1 ==> r == 1
  {
    Max(1, value - 1)
  }

  /** The "+" button. */
  function Increment(value: int): int { value + 1 }

  /** From any position of at least 1, "+" then "−" returns to it. */
  lemma IncrementThenDecrement(value: int)
    requires value >= 1
    ensures Decrement(Increment(value)) == value
  {
  }

  /** Typing into the field: `parseInt(text) || 1`. */
  function PositionInput(text: string): (r: int)
    ensures r != 0
    ensures ParseInt(text).None? ==> r == 1
    ensures ParseInt(text).Some? && ParseInt(text).value != 0 ==> r == ParseInt(text).value
  {
    match ParseInt(text)
    case None => 1
    case Some(n) => if n == 0 then 1 else n
  }

  /** A typed position other than 0 is read back as typed; 0 becomes 1. A typed
      negative position is kept. */
  lemma PositionInputRoundTrip(n: int)
    ensures PositionInput(IntToString(n)) == if n == 0 then 1 else n
  {
    ParseIntToString(n);
  }

  // ---------------------------------------------------------------------------
  // LessonSelector

  predicate OfGuardian(guardianId: int, l: Lesson) { l.guardianId == guardianId }

  /** The lessons the selector offers: those of the chosen guardian, or all of
      them when none is chosen. */
  function LessonsFor(lessons: seq<Lesson>, guardianId: Option<int>): (r: seq<Lesson>)
    ensures guardianId.None? ==> r == lessons
    ensures guardianId.Some? ==> forall l :: l in r <==> l in lessons && l.guardianId == guardianId.value
    ensures |r| <= |lessons|
  {
    if guardianId.None? then lessons
    else Filter(lessons, l => OfGuardian(guardianId.value, l))
  }

  // ---------------------------------------------------------------------------
  // WizardLayout

  datatype StepStatus = Done | Current | Upcoming

  /** The badge of step `index` while step `current` is shown. */
  function StatusOf(index: int, current: int): (s: StepStatus)
    ensures s == Done <==> index < current
    ensures s == Upcoming <==> index > current
  {
    if index < current then Done else if index == current then Current else Upcoming
  }

  /** While a step in range is shown, exactly that step is current, every earlier
      one is done and every later one upcoming. */
  lemma OneCurrentStep(steps: nat, current: nat)
    requires current < steps
    ensures forall i :: 0 <= i < steps ==> (StatusOf(i, current) == Current <==> i == current)
    ensures forall i :: 0 <= i < current ==> StatusOf(i, current) == Done
    ensures forall i :: current < i < steps ==> StatusOf(i, current) == Upcoming
  {
  }

  /** The footer: "Voltar" after the first step, and "Próximo"/"Salvar" enabled
      only when the step may proceed and nothing is being saved. */
  function Footer(current: int, canProceed: bool, submitting: bool): (r: (bool, bool))
    ensures r.0 <==> current > 0
    ensures r.1 <==> canProceed && !submitting
  {
    (current > 0, canProceed && !submitting)
  }
}

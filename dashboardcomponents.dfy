/** The learner dashboard's widgets (src/components/DashboardComponents.jsx): the
    header's first name and unread badge, the guardian carousel (colours, phrase,
    progress and swiping), the "continue" card, the guardian cards and the bottom
    navigation. */
module DashboardComponents {
  import opened Common
  import opened Lessons
  import Dashboard
  import Fragments

  // ---------------------------------------------------------------------------
  // Area tables

  /** The four subject looks. The colour, slide, mini image and fragment-name
      tables all have the same seven keys and agree on which look each key has,
      so one lookup of the look stands for all four. */
  datatype Area = Portugues | Matematica | Humanas | Natureza

  const AreaOfKey: map<string, Area> := map[
    "portugues" := Portugues, "português" := Portugues,
    "matematica" := Matematica, "matemática" := Matematica,
    "humanas" := Humanas,
    "natureza" := Natureza, "ciências" := Natureza]

  datatype Colors = Colors(bg: string, light: string)

  function ColorsOf(a: Area): Colors
  {
    match a
    case Portugues => Colors("#3B82F6", "#60A5FA")
    case Matematica => Colors("#EF4444", "#F87171")
    case Humanas => Colors("#F97316", "#FB923C")
    case Natureza => Colors("#22C55E", "#4ADE80")
  }

  function FragmentName(a: Area): string
  {
    match a
    case Portugues => "Fragmento do Ar"
    case Matematica => "Fragmento do Fogo"
    case Humanas => "Fragmento da Terra"
    case Natureza => "Fragmento do Gelo"
  }

  /** `area?.toLowerCase() || 'portugues'` */
  function AreaKey(area: Option<string>): (k: string)
    ensures k != []
    ensures area.Some? && area.value != [] ==> k == ToLower(area.value)
  {
    if area.None? || area.value == [] then "portugues" else ToLower(area.value)
  }

  /** `TABLE[areaKey] || TABLE.portugues`: a key missing from the tables gets the
      Português look. */
  function AreaFor(key: string): (a: Area)
    ensures key in AreaOfKey ==> a == AreaOfKey[key]
    ensures key !in AreaOfKey ==> a == Portugues
  {
    if key in AreaOfKey then AreaOfKey[key] else Portugues
  }

  /** The look of an area does not depend on how the area is capitalised. */
  lemma AreaKeyIgnoresCase(area: string)
    ensures AreaKey(Some(ToLower(area))) == AreaKey(Some(area))
  {
    ToLowerIdempotent(area);
  }

  /** An unknown area gets the blue colours, the Português slide and the name
      "Fragmento do Ar". */
  lemma UnknownAreaFallsBack(area: string)
    requires ToLower(area) !in AreaOfKey
    ensures AreaFor(AreaKey(Some(area))) == Portugues
    ensures ColorsOf(AreaFor(AreaKey(Some(area)))) == Colors("#3B82F6", "#60A5FA")
    ensures FragmentName(AreaFor(AreaKey(Some(area)))) == "Fragmento do Ar"
  {
    assert "portugues" in AreaOfKey;
  }

  // ---------------------------------------------------------------------------
  // DashboardHeader

  /** `userName?.split(' ')[0] || 'Aventureiro'`: the text before the first space,
      or "Aventureiro" when that is empty or there is no name. */
  function FirstName(userName: Option<string>): (r: string)
    ensures r != [] && ' ' !in r
    ensures userName.None? ==> r == "Aventureiro"
  {
    if userName.None? then "Aventureiro"
    else
      var first := SplitStr(userName.value, " ")[0];
      SplitPiecesFree(userName.value, ' ');
      assert first in SplitStr(userName.value, [' ']);
      if first == [] then "Aventureiro" else first
  }

  /** A name made of a first word, a space and anything else greets by that word. */
  lemma FirstNameIsFirstWord(w: string, rest: string)
    requires w != [] && ' ' !in w
    ensures FirstName(Some(w + " " + rest)) == w
  {
    var sp: string := [' '];
    SplitPrefix(w, ' ', sp + rest);
    assert w + " " + rest == w + (sp + rest);
    assert (sp + rest)[..1] == sp;
    assert (sp + rest)[1..] == rest;
    assert SplitStr(sp + rest, sp)[0] == [];
  }

  /** A name without a space greets by the whole name, "Aventureiro" when it
      is empty. */
  lemma FirstNameSingleWord(w: string)
    requires ' ' !in w
    ensures FirstName(Some(w)) == if w == [] then "Aventureiro" else w
  {
    SplitNoSep(w, ' ');
  }

  /** A name starting with a space has an empty first piece and greets
      "Aventureiro". */
  lemma FirstNameLeadingSpace(rest: string)
    ensures FirstName(Some(" " + rest)) == "Aventureiro"
  {
    var sp: string := [' '];
    assert (sp + rest)[..1] == sp;
  }

  /** The bell's badge: hidden without unread notifications, the count up to 9,
      "9+" above. */
  function Badge(unreadCount: int): (r: Option<string>)
    ensures r.None? <==> unreadCount <= 0
    ensures 1 <= unreadCount <= 9 ==> r.Some? && ParseInt(r.value) == Some(unreadCount) && |r.value| == 1
    ensures unreadCount > 9 ==> r == Some("9+")
  {
    if unreadCount > 0 then
      if unreadCount > 9 then Some("9+")
      else
        ParseIntToString(unreadCount);
        Some(IntToString(unreadCount))
    else None
  }

  // ---------------------------------------------------------------------------
  // HeroSlider

  const Phrases: seq<string> := [
    "Falta pouco para você conseguir recuperar o",
    "Você está quase lá! Continue para conquistar o",
    "A jornada continua! Alcance o",
    "Sua dedicação está valendo a pena! Busque o"]

  /** `Math.round(n / d)` for a positive `d`: the nearest integer, halves rounded
      up. */
  function RoundDiv(n: int, d: int): (r: int)
    requires d > 0
    ensures 2 * n - d < 2 * d * r <= 2 * n + d
  {
    (2 * n + d) / (2 * d)
  }

  /** `Math.min(100, Math.round(progress / 15 * 100))`: the carousel's percent,
      capped at 100. */
  function HeroPercent(progress: int): (p: int)
    ensures p <= 100
    ensures progress >= 0 ==> p >= 0
  {
    Min(100, RoundDiv(100 * progress, 15))
  }

  /** `isComplete` holds exactly when 15 fragments are collected. */
  lemma HeroCompleteIff(progress: int)
    ensures HeroPercent(progress) >= 100 <==> progress >= 15
  {
    var r := RoundDiv(100 * progress, 15);
    if progress >= 15 {
      assert 30 * r > 200 * progress - 15 >= 2985;
    } else {
      assert 30 * r <= 200 * progress + 15 <= 2815;
    }
  }

  /** More fragments never show a smaller percent. */
  lemma HeroPercentMonotone(a: int, b: int)
    requires a <= b
    ensures HeroPercent(a) <= HeroPercent(b)
  {
    var ra, rb := RoundDiv(100 * a, 15), RoundDiv(100 * b, 15);
    assert 30 * ra <= 200 * a + 15 && 200 * b - 15 < 30 * rb;
    assert ra < rb + 1;
  }

  /** What a slide shows. */
  datatype Slide = Slide(area: Area, phrase: string, percent: int, isComplete: bool)

  /** `progressData?.[guardian?.id] || 0` */
  function ProgressOf(progressData: Option<map<int, int>>, id: Option<int>): (n: int)
    ensures progressData.None? || id.None? || id.value !in progressData.value ==> n == 0
    ensures progressData.Some? && id.Some? && id.value in progressData.value ==> n == progressData.value[id.value]
  {
    if progressData.Some? && id.Some? && id.value in progressData.value then progressData.value[id.value] else 0
  }

  /** The slide of `currentIndex`, nothing when there is no guardian. An index
      past the list reads as a guardian without area or id. */
  function HeroSlide(guardians: seq<Fragments.Guardian>, currentIndex: nat, progressData: Option<map<int, int>>): (s: Option<Slide>)
    ensures s.None? <==> guardians == []
    ensures s.Some? ==> s.value.phrase == Phrases[currentIndex % 4]
    ensures s.Some? ==> (s.value.isComplete <==> ProgressOf(progressData, if currentIndex < |guardians| then Some(guardians[currentIndex].id) else None) >= 15)
    ensures s.Some? && currentIndex >= |guardians| ==> s.value.area == Portugues && s.value.percent == 0
    ensures s.Some? && currentIndex < |guardians| ==>
      s.value.area == AreaFor(AreaKey(guardians[currentIndex].area))
      && s.value.percent == HeroPercent(ProgressOf(progressData, Some(guardians[currentIndex].id)))
    ensures s.Some? && (progressData.Some? ==> forall k <- progressData.value :: progressData.value[k] >= 0) ==>
      0 <= s.value.percent <= 100
  {
    if guardians == [] then None
    else
      var g := if currentIndex < |guardians| then Some(guardians[currentIndex]) else None;
      var area := AreaFor(AreaKey(if g.Some? then g.value.area else None));
      var progress := ProgressOf(progressData, if g.Some? then Some(g.value.id) else None);
      var percent := HeroPercent(progress);
      HeroCompleteIff(progress);
      Some(Slide(area, Phrases[currentIndex % |Phrases|], percent, percent >= 100))
  }

  /** The phrases cycle every four slides. */
  lemma PhrasesCycle(i: nat)
    ensures Phrases[(i + 4) % 4] == Phrases[i % 4]
    ensures Phrases[(i + 1) % 4] != Phrases[i % 4]
  {
  }

  /** `handleDragEnd`: the slide asked for after a drag from `dragStart` to
      `clientX`, if any. */
  function DragTarget(dragStart: int, clientX: int, currentIndex: int, count: int): (r: Option<int>)
    ensures r.Some? ==> dragStart - clientX > 50 || dragStart - clientX < -50
    ensures r.Some? && dragStart > clientX ==> r.value == currentIndex + 1
    ensures r.Some? && dragStart < clientX ==> r.value == currentIndex - 1
    ensures 0 <= currentIndex < count && r.Some? ==> 0 <= r.value < count
    ensures dragStart - clientX > 50 && currentIndex < count - 1 ==> r == Some(currentIndex + 1)
    ensures dragStart - clientX < -50 && currentIndex > 0 ==> r == Some(currentIndex - 1)
  {
    var diff := dragStart - clientX;
    if diff > 50 || diff < -50 then
      if diff > 0 && currentIndex < count - 1 then Some(currentIndex + 1)
      else if diff < 0 && currentIndex > 0 then Some(currentIndex - 1)
      else None
    else None
  }

  /** Any sequence of drags keeps the carousel on a slide that exists. */
  lemma DragsStayInRange(drags: seq<(int, int)>, currentIndex: int, count: int)
    requires 0 <= currentIndex < count
    ensures 0 <= AfterDrags(drags, currentIndex, count) < count
    decreases |drags|
  {
    if drags != [] {
      var next := DragTarget(drags[0].0, drags[0].1, currentIndex, count);
      DragsStayInRange(drags[1..], OrElse(next, currentIndex), count);
    }
  }

  /** The slide after a sequence of drags, each a start and an end position. */
  function AfterDrags(drags: seq<(int, int)>, currentIndex: int, count: int): int
    decreases |drags|
  {
    if drags == [] then currentIndex
    else AfterDrags(drags[1..], OrElse(DragTarget(drags[0].0, drags[0].1, currentIndex, count), currentIndex), count)
  }

  // ---------------------------------------------------------------------------
  // CurrentLessonCard

  datatype Card =
    | NoCard
    | Congratulations
    | ContinueCard(link: int, ordem: int, unidade: int, titulo: string, colors: Colors)

  /** The card for what the dashboard offers next, in the subject's colours. */
  function CurrentLessonCard(next: Dashboard.Next, subject: Option<string>): (c: Card)
    ensures next.Completed? <==> c.Congratulations?
    ensures next.NoLesson? <==> c.NoCard?
    ensures c.ContinueCard? ==> c.link == next.lesson.id && c.ordem != 0 && c.unidade != 0 && c.titulo != []
    ensures c.ContinueCard? ==> c.ordem == (if next.lesson.ordem == 0 then 1 else next.lesson.ordem)
    ensures c.ContinueCard? ==>
      c.unidade == (if next.lesson.unidade.None? || next.lesson.unidade.value == 0 then 1 else next.lesson.unidade.value)
    ensures c.ContinueCard? ==> c.titulo == (if next.lesson.titulo == [] then "Comece sua jornada!" else next.lesson.titulo)
    ensures c.ContinueCard? ==> c.colors == ColorsOf(AreaFor(AreaKey(subject)))
  {
    match next
    case Completed => Congratulations
    case NoLesson => NoCard
    case LessonOf(l) =>
      ContinueCard(l.id,
        if l.ordem == 0 then 1 else l.ordem,
        if l.unidade.None? || l.unidade.value == 0 then 1 else l.unidade.value,
        if l.titulo == [] then "Comece sua jornada!" else l.titulo,
        ColorsOf(AreaFor(AreaKey(subject))))
  }

  // ---------------------------------------------------------------------------
  // GuardianCard

  /** `Math.round(progress / 15 * 100)`, not capped. */
  function CardPercent(progress: int): (p: int)
    ensures progress >= 0 ==> p >= 0
    ensures 30 * p - 15 <= 200 * progress < 30 * p + 15
  {
    RoundDiv(100 * progress, 15)
  }

  /** Below 15 fragments the card and the carousel agree; from 16 on the card
      shows more than 100 percent. */
  lemma CardPercentUncapped(progress: int)
    ensures progress <= 15 ==> CardPercent(progress) == HeroPercent(progress)
    ensures progress > 15 ==> CardPercent(progress) > 100 && HeroPercent(progress) == 100
  {
    var r := CardPercent(progress);
    if progress <= 15 {
      assert 30 * r - 15 <= 200 * progress <= 3000;
    } else {
      assert 30 * r + 15 > 200 * progress >= 3200;
    }
  }

  /** A locked card links nowhere (`'#'`), an open one to the guardian's lessons. */
  function CardLink(isLocked: bool, guardianId: int): (link: string)
    ensures isLocked <==> link == "#"
    ensures !isLocked ==> StartsWith(link, "/lessons/") && ParseInt(link[9..]) == Some(guardianId)
  {
    if isLocked then "#"
    else
      ParseIntToString(guardianId);
      var path := "/lessons/" + IntToString(guardianId);
      assert path[9..] == IntToString(guardianId);
      path
  }

  // ---------------------------------------------------------------------------
  // BottomNav

  const NavPaths: seq<string> := ["/dashboard", "/map", "/guardians", "/profile"]

  /** Whether the item for `itemPath` is highlighted on `currentPath`. */
  predicate IsActive(itemPath: string, currentPath: string)
    ensures currentPath == itemPath ==> IsActive(itemPath, currentPath)
    ensures itemPath != "/dashboard" && itemPath != "/guardians" ==> (IsActive(itemPath, currentPath) <==> currentPath == itemPath)
  {
    currentPath == itemPath
    || (itemPath == "/dashboard" && currentPath == "/")
    || (itemPath == "/guardians" && StartsWith(currentPath, "/lessons"))
  }

  /** "Início" is lit on `/dashboard` and `/`; "Explorar" on `/guardians` and on
      every path under `/lessons`; "Mapa" and "Perfil" on their own path only. */
  lemma ActiveItems(p: string)
    ensures IsActive("/dashboard", p) <==> p == "/dashboard" || p == "/"
    ensures IsActive("/guardians", p) <==> p == "/guardians" || StartsWith(p, "/lessons")
    ensures IsActive("/map", p) <==> p == "/map"
    ensures IsActive("/profile", p) <==> p == "/profile"
  {
  }

  /** At most one item is lit, whatever the path. */
  lemma AtMostOneActive(p: string, i: int, j: int)
    requires 0 <= i < j < |NavPaths|
    ensures !(IsActive(NavPaths[i], p) && IsActive(NavPaths[j], p))
  {
    var lessons: string := "/lessons";
    if StartsWith(p, lessons) {
      assert p[1] == 'l' by { assert p[..|lessons|] == lessons; }
      assert p != "/dashboard" && p != "/map" && p != "/profile" && p != "/";
    }
  }
}

/** The "Explorar" page (src/pages/Guardians.jsx): the learner's fragments with
    their guardians, filtered by area and by a name search, with the journey's
    overall percentage, the fragment counters and the guardian cards. */
module GuardiansPage {
  import opened Common
  import opened Fragments

  /** The page reads `f.guardian.area` and `f.guardian.nome` without a guard: it
      needs every fragment joined with a guardian that has a name. */
  predicate Joined(frs: seq<FragmentView>)
  {
    forall f <- frs :: f.fragment.guardian.Some? && f.fragment.guardian.value.nome.Some?
  }

  function AreaOf(f: FragmentView): Option<string>
  {
    if f.fragment.guardian.Some? then f.fragment.guardian.value.area else None
  }

  // ---------------------------------------------------------------------------
  // getTheme

  /** The keys of `AREA_THEMES`, in their order. */
  const ThemeKeys: seq<string> := ["Português", "Matemática", "Natureza", "Humanas", "default"]

  /** `getTheme(area)`: the first key the area contains, compared with case; the
      default theme when none is contained or there is no area. */
  function GetTheme(area: Option<string>): (key: string)
    ensures key in ThemeKeys
    ensures area.None? ==> key == "default"
    ensures area.Some? ==> match FindIndex(ThemeKeys, k => Includes(area.value, k))
      case Some(i) => key == ThemeKeys[i] && forall j :: 0 <= j < i ==> !Includes(area.value, ThemeKeys[j])
      case None => key == "default" && forall j :: 0 <= j < |ThemeKeys| ==> !Includes(area.value, ThemeKeys[j])
  {
    if area.None? then "default"
    else
      match FindIndex(ThemeKeys, k => Includes(area.value, k))
      case Some(i) => ThemeKeys[i]
      case None => "default"
  }

  /** The four subject keys start with a capital, so a lower-cased area gets the
      default theme whatever it names. */
  lemma ThemeIsCaseSensitive(x: string)
    ensures GetTheme(Some(ToLower(x))) == "default"
  {
    CapitalKeyNotInLower(x, "Português");
    CapitalKeyNotInLower(x, "Matemática");
    CapitalKeyNotInLower(x, "Natureza");
    CapitalKeyNotInLower(x, "Humanas");
  }

  // ---------------------------------------------------------------------------
  // areas

  /** The truthy areas of the fragments, in order. */
  function TruthyAreas(frs: seq<FragmentView>): (r: seq<string>)
    ensures forall a :: a in r <==> a != [] && exists f <- frs :: AreaOf(f) == Some(a)
  {
    if frs == [] then []
    else
      var rest := TruthyAreas(frs[1..]);
      assert forall f :: f in frs <==> f == frs[0] || f in frs[1..] by {
        assert frs == [frs[0]] + frs[1..];
      }
      match AreaOf(frs[0])
      case Some(a) => if a != [] then [a] + rest else rest
      case None => rest
  }

  /** The truthy areas of two lists of fragments, one after the other, are those
      of the first list followed by those of the second. */
  lemma {:induction false} TruthyAreasAppend(a: seq<FragmentView>, b: seq<FragmentView>)
    ensures TruthyAreas(a + b) == TruthyAreas(a) + TruthyAreas(b)
  {
    if a == [] {
      assert a + b == b;
    } else {
      assert (a + b)[0] == a[0];
      assert (a + b)[1..] == a[1..] + b;
      TruthyAreasAppend(a[1..], b);
    }
  }

  /** `areas`: "Todos" followed by every truthy area once, in order of first
      appearance. */
  function Areas(frs: seq<FragmentView>): (r: seq<string>)
    ensures |r| >= 1 && r[0] == "Todos"
    ensures NoDuplicates(r[1..])
    ensures forall a :: a in r[1..] <==> a != [] && exists f <- frs :: AreaOf(f) == Some(a)
    ensures forall i, j :: 1 <= i < j < |r| ==>
      r[i] in TruthyAreas(frs) && r[j] in TruthyAreas(frs)
      && IndexOf(TruthyAreas(frs), r[i]) < IndexOf(TruthyAreas(frs), r[j])
  {
    var d := Distinct(TruthyAreas(frs));
    DistinctOrder(TruthyAreas(frs));
    var r := ["Todos"] + d;
    assert r[1..] == d;
    assert forall i :: 1 <= i < |r| ==> r[i] == d[i - 1];
    r
  }

  // ---------------------------------------------------------------------------
  // filteredGuardians

  /** Whether a fragment is listed for the chosen area and search text. */
  predicate Listed(selectedArea: string, searchTerm: string, f: FragmentView)
  {
    var name := if f.fragment.guardian.Some? then OrElse(f.fragment.guardian.value.nome, "") else "";
    (selectedArea == "Todos" || AreaOf(f) == Some(selectedArea))
    && Includes(ToLower(name), ToLower(searchTerm))
  }

  /** `filteredGuardians` */
  function FilteredGuardians(frs: seq<FragmentView>, selectedArea: string, searchTerm: string): (r: seq<FragmentView>)
    requires Joined(frs)
    ensures forall f :: f in r <==> f in frs && Listed(selectedArea, searchTerm, f)
    ensures |r| <= |frs|
  {
    Filter(frs, f => Listed(selectedArea, searchTerm, f))
  }

  /** The filter keeps the page's order: filtering two lists one after the other
      gives the two filtered lists one after the other. */
  lemma FilteredGuardiansAppend(a: seq<FragmentView>, b: seq<FragmentView>, selectedArea: string, searchTerm: string)
    requires Joined(a) && Joined(b)
    ensures Joined(a + b)
    ensures FilteredGuardians(a + b, selectedArea, searchTerm)
      == FilteredGuardians(a, selectedArea, searchTerm) + FilteredGuardians(b, selectedArea, searchTerm)
  {
    FilterAppend(a, b, f => Listed(selectedArea, searchTerm, f));
  }

  /** With "Todos" and no search text every fragment is listed, in order. */
  lemma ShowAllInitially(frs: seq<FragmentView>)
    requires Joined(frs)
    ensures FilteredGuardians(frs, "Todos", "") == frs
  {
    forall f <- frs ensures Listed("Todos", "", f) {
      var name := OrElse(f.fragment.guardian.value.nome, "");
      IncludesSelf(ToLower(name));
    }
    FilterAll(frs, f => Listed("Todos", "", f));
  }

  /** The search does not depend on how the search text is capitalised. */
  lemma SearchIgnoresCase(frs: seq<FragmentView>, selectedArea: string, term: string)
    requires Joined(frs)
    ensures FilteredGuardians(frs, selectedArea, ToLower(term)) == FilteredGuardians(frs, selectedArea, term)
  {
    ToLowerIdempotent(term);
    FilterSame(frs, selectedArea, ToLower(term), term);
  }

  /** Two search texts that list the same fragments give the same list. */
  lemma {:induction false} FilterSame(frs: seq<FragmentView>, area: string, t1: string, t2: string)
    requires ToLower(t1) == ToLower(t2)
    ensures Filter(frs, f => Listed(area, t1, f)) == Filter(frs, f => Listed(area, t2, f))
  {
    if frs != [] {
      FilterCons(frs, f => Listed(area, t1, f));
      FilterCons(frs, f => Listed(area, t2, f));
      FilterSame(frs[1..], area, t1, t2);
    }
  }

  /** A fragment is found by any piece of its guardian's name, in any case. */
  lemma FoundByNamePiece(frs: seq<FragmentView>, f: FragmentView, pre: string, piece: string, post: string)
    requires Joined(frs) && f in frs
    requires f.fragment.guardian.value.nome == Some(pre + piece + post)
    ensures f in FilteredGuardians(frs, "Todos", ToUpperAscii(piece))
  {
    var name := pre + piece + post;
    ToLowerUpperAscii(piece);
    ToLowerSlice(name, |pre|, |pre| + |piece|);
    assert name[|pre|..|pre| + |piece|] == piece;
    assert OccursAt(ToLower(name), ToLower(piece), |pre|);
    IncludesIff(ToLower(name), ToLower(piece));
  }

  /** Upper-cases ASCII letters. */
  function ToUpperAscii(s: string): (r: string)
    ensures |r| == |s|
    ensures forall i :: 0 <= i < |s| ==> r[i] == if 'a' <= s[i] <= 'z' then (s[i] as int - 32) as char else s[i]
  {
    if s == [] then [] else [if 'a' <= s[0] <= 'z' then (s[0] as int - 32) as char else s[0]] + ToUpperAscii(s[1..])
  }

  lemma ToLowerUpperAscii(s: string)
    ensures ToLower(ToUpperAscii(s)) == ToLower(s)
  {
  }

  // ---------------------------------------------------------------------------
  // totalProgress and the counters

  /** `porcentagem || 0`: NaN and 0 read as 0. */
  function PercentOrZero(f: FragmentView): real
  {
    if f.porcentagem.NaN? then 0.0 else f.porcentagem.value
  }

  function SumPercent(frs: seq<FragmentView>): real
  {
    if frs == [] then 0.0 else SumPercent(frs[..|frs| - 1]) + PercentOrZero(frs[|frs| - 1])
  }

  /** Percentages between 0 and 100 sum to at most 100 per fragment. */
  lemma {:induction false} SumPercentBounds(frs: seq<FragmentView>)
    requires forall f <- frs :: 0.0 <= PercentOrZero(f) <= 100.0
    ensures 0.0 <= SumPercent(frs) <= 100.0 * |frs| as real
  {
    if frs != [] {
      var init := frs[..|frs| - 1];
      assert forall f <- init :: f in frs;
      assert frs[|frs| - 1] in frs;
      SumPercentBounds(init);
    }
  }

  /** `totalProgress`: 0 without fragments, otherwise the mean of the
      percentages rounded to the nearest integer, halves up. */
  function TotalProgress(frs: seq<FragmentView>): (r: int)
    ensures frs == [] ==> r == 0
    ensures frs != [] ==> r as real - 0.5 <= SumPercent(frs) / |frs| as real < r as real + 0.5
    ensures (forall f <- frs :: 0.0 <= PercentOrZero(f) <= 100.0) ==> 0 <= r <= 100
  {
    if frs == [] then 0
    else
      var mean := SumPercent(frs) / |frs| as real;
      var r := (mean + 0.5).Floor;
      MeanBounds(frs);
      r
  }

  /** The mean of percentages between 0 and 100 is between 0 and 100. */
  lemma MeanBounds(frs: seq<FragmentView>)
    requires frs != []
    ensures (forall f <- frs :: 0.0 <= PercentOrZero(f) <= 100.0) ==> 0.0 <= SumPercent(frs) / |frs| as real <= 100.0
  {
    if forall f <- frs :: 0.0 <= PercentOrZero(f) <= 100.0 {
      SumPercentBounds(frs);
    }
  }

  predicate Unlocked(f: FragmentView) { f.desbloqueado }

  /** The header's counter: the number of unlocked fragments. */
  function UnlockedCount(frs: seq<FragmentView>): (n: nat)
    ensures n <= |frs|
    ensures n == |Filter(frs, Unlocked)|
  {
    CountIsFilterLength(frs, Unlocked);
    Count(frs, Unlocked)
  }

  /** The "total" badge: the quantities held, added up. */
  function TotalQuantity(frs: seq<FragmentView>): (n: int)
    ensures frs == [] ==> n == 0
    ensures |frs| == 1 ==> n == frs[0].quantidadeAtual
  {
    assert |frs| == 1 ==> frs[..0] == [];
    if frs == [] then 0 else TotalQuantity(frs[..|frs| - 1]) + frs[|frs| - 1].quantidadeAtual
  }

  /** The total of two lists is the sum of their totals. */
  lemma {:induction false} TotalQuantityAppend(a: seq<FragmentView>, b: seq<FragmentView>)
    ensures TotalQuantity(a + b) == TotalQuantity(a) + TotalQuantity(b)
    decreases |b|
  {
    if b == [] {
      assert a + b == a;
    } else {
      var init := b[..|b| - 1];
      TotalQuantityAppend(a, init);
      assert (a + b)[..|a + b| - 1] == a + init;
      assert (a + b)[|a + b| - 1] == b[|b| - 1];
    }
  }

  /** With at most 15 of each kind the total stays within 15 per fragment. */
  lemma {:induction false} TotalQuantityBounds(frs: seq<FragmentView>)
    requires forall f <- frs :: 0 <= f.quantidadeAtual <= MaxFragments
    ensures 0 <= TotalQuantity(frs) <= MaxFragments * |frs|
  {
    if frs != [] {
      var init := frs[..|frs| - 1];
      assert forall f <- init :: f in frs;
      assert frs[|frs| - 1] in frs;
      TotalQuantityBounds(init);
    }
  }

  predicate InArea(area: string, f: FragmentView) { AreaOf(f) == Some(area) }

  /** A fragment card's count: the quantity of the first fragment of that area, 0
      when there is none. */
  function AreaCount(frs: seq<FragmentView>, area: string): (n: int)
    ensures (forall f <- frs :: AreaOf(f) != Some(area)) ==> n == 0
    ensures (exists f <- frs :: AreaOf(f) == Some(area)) ==>
      exists k :: 0 <= k < |frs| && AreaOf(frs[k]) == Some(area) && n == frs[k].quantidadeAtual
                  && forall j :: 0 <= j < k ==> AreaOf(frs[j]) != Some(area)
  {
    match FindIndex(frs, f => InArea(area, f))
    case Some(k) => frs[k].quantidadeAtual
    case None => 0
  }

  // ---------------------------------------------------------------------------
  // GuardianCard

  /** The card's bar: `Math.min(porcentagem || 0, 100)`. */
  function CardProgress(f: FragmentView): (p: real)
    ensures p <= 100.0
    ensures PercentOrZero(f) >= 0.0 ==> p >= 0.0
    ensures PercentOrZero(f) <= 100.0 ==> p == PercentOrZero(f)
  {
    var x := PercentOrZero(f);
    if x <= 100.0 then x else 100.0
  }

  /** The order the card looks for its predecessor at:
      `(fragment.guardian?.ordem_progressao || 0) - 1`. */
  function PreviousOrdem(f: FragmentView): int
  {
    if f.fragment.guardian.None? then -1 else f.fragment.guardian.value.ordemProgressao - 1
  }

  predicate ViewHasOrdem(o: int, v: FragmentView) { HasOrdem(o, v.fragment) }

  /** `previousGuardian`: the first fragment whose guardian has the order before
      the card's, named in the lock message. */
  function PreviousGuardian(all: seq<FragmentView>, f: FragmentView): (r: Option<FragmentView>)
    ensures r.None? <==> forall v <- all :: !HasOrdem(PreviousOrdem(f), v.fragment)
    ensures r.Some? ==> exists k :: 0 <= k < |all| && all[k] == r.value && HasOrdem(PreviousOrdem(f), all[k].fragment)
                         && forall j :: 0 <= j < k ==> !HasOrdem(PreviousOrdem(f), all[j].fragment)
  {
    match FindIndex(all, v => ViewHasOrdem(PreviousOrdem(f), v))
    case None => None
    case Some(k) => Some(all[k])
  }

  /** On the page built by `fetchFragments`, the guardian a card past the first
      order names in its lock message is the one whose percentage decides the
      lock, against the percentage the card shows as required. */
  lemma LockMessageNamesDecidingGuardian(frs: seq<Fragment>, ufs: seq<UserFragment>, i: nat, j: nat)
    requires j < |frs| && frs[j].guardian.Some? && frs[j].guardian.value.ordemProgressao != 1
    requires forall k :: 0 <= k < j ==> !HasOrdem(frs[j].guardian.value.ordemProgressao, frs[k])
    requires i < |frs| && HasOrdem(frs[j].guardian.value.ordemProgressao - 1, frs[i])
    requires forall k :: 0 <= k < i ==> !HasOrdem(frs[j].guardian.value.ordemProgressao - 1, frs[k])
    ensures var vs := FragmentsWithProgress(frs, ufs);
      && PreviousGuardian(vs, vs[j]) == Some(vs[i])
      && (vs[j].desbloqueado <==> AtLeast(vs[i].porcentagem, RequiredPercentage(frs[j])))
  {
    var vs := FragmentsWithProgress(frs, ufs);
    var o := frs[j].guardian.value.ordemProgressao;
    assert PreviousOrdem(vs[j]) == o - 1;
    forall k | 0 <= k < i ensures !ViewHasOrdem(o - 1, vs[k]) {
      assert vs[k].fragment == frs[k];
    }
    PreviousGuardianIs(vs, vs[j], i);
    assert HasOrdem(o, frs[j]);
    UnlockIff(frs, ufs, o, i, j);
  }

  /** The first view with the order before the card's is its previous guardian. */
  lemma PreviousGuardianIs(all: seq<FragmentView>, f: FragmentView, i: nat)
    requires i < |all| && ViewHasOrdem(PreviousOrdem(f), all[i])
    requires forall k :: 0 <= k < i ==> !ViewHasOrdem(PreviousOrdem(f), all[k])
    ensures PreviousGuardian(all, f) == Some(all[i])
  {
    assert FindIndex(all, v => ViewHasOrdem(PreviousOrdem(f), v)) == Some(i);
  }

  /** A fragment whose percentage the learner already finished shows a full bar. */
  lemma CompleteCardIsFull(f: FragmentView)
    requires f.fragment.quantidadeTotal > 0 && f.quantidadeAtual >= f.fragment.quantidadeTotal
    requires f.porcentagem == PercentOf(f.quantidadeAtual, f.fragment.quantidadeTotal)
    ensures CardProgress(f) == 100.0
  {
  }
}

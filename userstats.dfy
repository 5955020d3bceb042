/** The learner statistics of src/hooks/useUserStats.js: the study streak (how many
    consecutive days up to today have a completed lesson), the fragment total, the
    guardian with the most fragments, and the overall progress percentage. Days are
    numbered consecutively; the conversion of completion timestamps to local
    calendar days is not part of this model. */
module UserStats {
  import opened Common

  // ---------------------------------------------------------------------------
  // The streak, stated on the set of study days

  /** The number of consecutive days in `days` ending with day `d`. */
  function RunLength(days: set<int>, d: int): nat
    decreases |days|
  {
    if d in days then 1 + RunLength(days - {d}, d - 1) else 0
  }

  /** A run never has more days than the set. */
  lemma {:induction false} RunLengthBound(days: set<int>, d: int)
    ensures RunLength(days, d) <= |days|
    decreases |days|
  {
    if d in days {
      RunLengthBound(days - {d}, d - 1);
    }
  }

  /** The day `k` days before `d`. */
  function DaysBefore(d: int, k: int): int { d - k }

  /** `RunLength` counts exactly the consecutive days: the `n` days `d, d-1, …,
      d-n+1` are all study days and the day before them is not. */
  lemma {:induction false} RunLengthIff(days: set<int>, d: int, n: nat)
    ensures RunLength(days, d) == n <==>
      (forall k :: 0 <= k < n ==> DaysBefore(d, k) in days) && DaysBefore(d, n) !in days
    decreases |days|
  {
    if d in days {
      var rest := days - {d};
      var e := d - 1;
      if n > 0 {
        RunLengthIff(rest, e, n - 1);
        forall k | 0 <= k < n - 1
          ensures DaysBefore(e, k) in rest <==> DaysBefore(d, k + 1) in days
        {
        }
        assert DaysBefore(e, n - 1) in rest <==> DaysBefore(d, n) in days;
        if forall k :: 0 <= k < n ==> DaysBefore(d, k) in days {
          forall k | 0 <= k < n - 1 ensures DaysBefore(e, k) in rest {
            assert DaysBefore(d, k + 1) in days;
          }
        }
        if forall k :: 0 <= k < n - 1 ==> DaysBefore(e, k) in rest {
          forall k | 0 <= k < n ensures DaysBefore(d, k) in days {
            if k > 0 { assert DaysBefore(e, k - 1) in rest; }
          }
        }
      } else {
        assert DaysBefore(d, 0) in days;
      }
    } else {
      if n > 0 {
        assert DaysBefore(d, 0) !in days;
      }
    }
  }

  /** The streak `calculateStreak` reports: the run ending today, provided today is
      a study day and no study day lies after it; otherwise 0. */
  function Streak(days: set<int>, today: int): nat
  {
    if today in days && (forall d <- days :: d <= today) then RunLength(days, today) else 0
  }

  /** The streak the comment at the grace branch describes: without a study day
      today, the run ending yesterday still counts. */
  function StreakWithGrace(days: set<int>, today: int): nat
  {
    if !(forall d <- days :: d <= today) then 0
    else if today in days then RunLength(days, today)
    else RunLength(days, today - 1)
  }

  /** No study days, no streak; and the streak never exceeds the number of
      distinct study days. */
  lemma StreakBounds(days: set<int>, today: int)
    ensures Streak({}, today) == 0
    ensures Streak(days, today) <= |days|
    ensures StreakWithGrace(days, today) <= |days|
  {
    RunLengthBound(days, today);
    RunLengthBound(days, today - 1);
  }

  /** As written, a history without a study day today has no streak at all. */
  lemma NoStudyTodayNoStreak(days: set<int>, today: int)
    requires today !in days
    ensures Streak(days, today) == 0
  {
  }

  /** Studying only yesterday: the code reports 0 where the grace rule gives 1. */
  lemma GraceBranchIneffective(today: int)
    ensures Streak({today - 1}, today) == 0
    ensures StreakWithGrace({today - 1}, today) == 1
  {
    assert RunLength({today - 1}, today - 1) == 1 by {
      assert {today - 1} - {today - 1} == {};
    }
  }

  /** With a study day today the two readings agree. */
  lemma GraceAgreesWhenStudiedToday(days: set<int>, today: int)
    requires today in days
    ensures Streak(days, today) == StreakWithGrace(days, today)
  {
  }

  // ---------------------------------------------------------------------------
  // The loop over the sorted distinct days

  predicate StrictlyDecreasing(s: seq<int>)
  {
    forall i, j :: 0 <= i < j < |s| ==> s[i] > s[j]
  }

  function Neg(x: int): int { -x }

  /** The values a list holds. */
  function SetOf(s: seq<int>): set<int>
  {
    set x <- s
  }

  /** The loop's count from position `i` on, while the `i`-th latest day is the
      day `i` days before `start`. */
  function RunFrom(s: seq<int>, start: int, i: nat): nat
    requires i <= |s|
    decreases |s| - i
  {
    if i < |s| && s[i] == start - i then RunFrom(s, start, i + 1) else i
  }

  lemma {:induction false} RunFromIsRunLength(s: seq<int>, start: int, i: nat)
    requires StrictlyDecreasing(s)
    requires i <= |s|
    requires forall k :: i <= k < |s| ==> s[k] <= start - i
    ensures RunFrom(s, start, i) == i + RunLength(SetOf(s[i..]), start - i)
    decreases |s| - i
  {
    if i < |s| && s[i] == start - i {
      LaterSmaller(s, i, start);
      RunFromIsRunLength(s, start, i + 1);
      RunStep(s, start, i);
    } else {
      RunEnd(s, start, i);
    }
  }

  /** Every day after position `i` of a strictly decreasing list is earlier. */
  lemma LaterSmaller(s: seq<int>, i: nat, start: int)
    requires StrictlyDecreasing(s) && i < |s| && s[i] == start - i
    ensures forall k :: i < k < |s| ==> s[k] < s[i]
    ensures forall k :: i + 1 <= k < |s| ==> s[k] <= start - (i + 1)
  {
  }

  /** Where the loop stops, the run of the remaining days ends too. */
  lemma RunEnd(s: seq<int>, start: int, i: nat)
    requires StrictlyDecreasing(s)
    requires i <= |s|
    requires forall k :: i <= k < |s| ==> s[k] <= start - i
    requires !(i < |s| && s[i] == start - i)
    ensures RunFrom(s, start, i) == i + RunLength(SetOf(s[i..]), start - i)
  {
    forall k | i <= k < |s| ensures s[k] != start - i {
      if k > i { assert s[i] > s[k]; }
    }
    assert start - i !in SetOf(s[i..]);
    assert RunLength(SetOf(s[i..]), start - i) == 0;
  }

  /** One step of the loop: the day `i` days before `start` is the `i`-th latest,
      so the count from the next position, with that day removed, carries over. */
  lemma RunStep(s: seq<int>, start: int, i: nat)
    requires i < |s| && s[i] == start - i
    requires forall k :: i < k < |s| ==> s[k] < s[i]
    requires RunFrom(s, start, i + 1) == i + 1 + RunLength(SetOf(s[i + 1..]), start - (i + 1))
    ensures RunFrom(s, start, i) == i + RunLength(SetOf(s[i..]), start - i)
  {
    SetOfDrop(s, i);
    RunLengthStep(SetOf(s[i..]), s[i]);
    assert RunFrom(s, start, i) == RunFrom(s, start, i + 1);
  }

  lemma RunLengthStep(days: set<int>, d: int)
    requires d in days
    ensures RunLength(days, d) == 1 + RunLength(days - {d}, d - 1)
  {
  }

  /** Dropping the latest day of a decreasing list removes exactly that day from
      its set. */
  lemma SetOfDrop(s: seq<int>, i: nat)
    requires i < |s|
    requires forall k :: i < k < |s| ==> s[k] < s[i]
    ensures SetOf(s[i..]) - {s[i]} == SetOf(s[i + 1..])
    ensures s[i] in SetOf(s[i..])
  {
    assert s[i..] == [s[i]] + s[i + 1..];
    assert s[i] !in s[i + 1..];
  }

  /** The first day of a strictly decreasing list is its latest. */
  lemma LatestBound(s: seq<int>)
    requires StrictlyDecreasing(s) && |s| > 0
    ensures forall d <- SetOf(s) :: d <= s[0]
    ensures s[0] in SetOf(s)
  {
    forall d | d in SetOf(s) ensures d <= s[0] {
      var k :| 0 <= k < |s| && s[k] == d;
      if k > 0 { assert s[0] > s[k]; }
    }
  }

  lemma SetOfSeq(s: seq<int>)
    ensures SetOf(s[0..]) == SetOf(s)
  {
    assert s[0..] == s;
  }

  /** On the latest-first list of distinct study days the loop as written computes
      `Streak`. */
  lemma AsWrittenIsStreak(s: seq<int>, today: int)
    requires StrictlyDecreasing(s)
    ensures (if |s| > 0 && s[0] == today then RunFrom(s, today, 0) else 0) == Streak(SetOf(s), today)
  {
    SetOfSeq(s);
    if |s| > 0 {
      LatestBound(s);
      if s[0] == today {
        RunFromIsRunLength(s, today, 0);
      }
    }
  }

  /** The corrected loop, started from yesterday when the latest day is yesterday,
      computes `StreakWithGrace`. */
  lemma CorrectedIsStreakWithGrace(s: seq<int>, today: int)
    requires StrictlyDecreasing(s)
    ensures var start := if |s| > 0 && s[0] == today - 1 then today - 1 else today;
      (if |s| > 0 && s[0] == start then RunFrom(s, start, 0) else 0) == StreakWithGrace(SetOf(s), today)
  {
    SetOfSeq(s);
    if |s| > 0 {
      LatestBound(s);
      var start := if s[0] == today - 1 then today - 1 else today;
      if s[0] == start {
        RunFromIsRunLength(s, start, 0);
      }
    }
  }

  /** A distinct list has every value at most once. */
  lemma {:induction false} NoDuplicatesCount(d: seq<int>, x: int)
    requires NoDuplicates(d)
    ensures multiset(d)[x] <= 1
  {
    if d != [] {
      assert d == [d[0]] + d[1..];
      assert NoDuplicates(d[1..]) by {
        forall i, j | 0 <= i < j < |d| - 1 ensures d[1..][i] != d[1..][j] {
          assert d[i + 1] != d[j + 1];
        }
      }
      NoDuplicatesCount(d[1..], x);
      if d[0] == x {
        assert x !in d[1..] by {
          forall j | 0 <= j < |d| - 1 ensures d[1..][j] != x { assert d[0] != d[j + 1]; }
        }
      }
    }
  }

  lemma TwoOccurrences(s: seq<int>, i: int, j: int)
    requires 0 <= i < j < |s| && s[i] == s[j]
    ensures multiset(s)[s[i]] >= 2
  {
    assert s == s[..j] + s[j..];
    assert s[i] in s[..j] && s[j] in s[j..] by {
      assert s[..j][i] == s[i];
      assert s[j..][0] == s[j];
    }
    assert multiset(s) == multiset(s[..j]) + multiset(s[j..]);
  }

  /** Sorting the distinct days latest first gives a strictly decreasing list. */
  lemma SortedDistinctDecreasing(d: seq<int>)
    requires NoDuplicates(d)
    ensures StrictlyDecreasing(SortBy(d, Neg))
  {
    var s := SortBy(d, Neg);
    forall i, j | 0 <= i < j < |s| ensures s[i] > s[j] {
      assert Neg(s[i]) <= Neg(s[j]);
      if s[i] == s[j] {
        TwoOccurrences(s, i, j);
        NoDuplicatesCount(d, s[i]);
      }
    }
  }

  /** The distinct study days latest first, as the `Set` and the sort build them. */
  method SortedDays(completedDays: seq<int>) returns (s: seq<int>)
    ensures StrictlyDecreasing(s)
    ensures SetOf(s) == SetOf(completedDays)
    ensures |s| > 0 <==> |completedDays| > 0
  {
    var days: seq<int> := [];
    var i := 0;
    while i < |completedDays|
      invariant 0 <= i <= |completedDays|
      invariant days == Distinct(completedDays[..i])
    {
      assert completedDays[..i + 1][..i] == completedDays[..i];
      if completedDays[i] !in days {
        days := days + [completedDays[i]];
      }
      i := i + 1;
    }
    assert completedDays[..i] == completedDays;
    s := SortBy(days, Neg);
    SortedDistinctDecreasing(days);
    forall x | x in days ensures x in s {
      assert x in multiset(days);
    }
    forall x | x in s ensures x in days {
      assert x in multiset(s);
    }
    if |completedDays| > 0 {
      assert completedDays[0] in days;
    }
  }

  /** `calculateStreak`, on the days of the learner's completions. */
  method CalculateStreak(completedDays: seq<int>, today: int) returns (streak: nat)
    ensures streak == Streak(SetOf(completedDays), today)
  {
    if |completedDays| == 0 {
      return 0;
    }
    var s := SortedDays(completedDays);
    streak := 0;
    var i := 0;
    while i < |s|
      invariant 0 <= i <= |s|
      invariant streak == i || (i == 1 && streak == 0 && s[0] == today - 1)
      invariant forall k :: 0 <= k < streak ==> s[k] == today - k
      invariant streak == i ==> RunFrom(s, today, 0) == RunFrom(s, today, i)
    {
      var expected := today - i;
      if expected == s[i] {
        streak := streak + 1;
      } else if i == 0 && expected - s[i] == 1 {
        i := i + 1;
        continue;
      } else {
        break;
      }
      i := i + 1;
    }
    AsWrittenIsStreak(s, today);
    if |s| > 0 && s[0] == today {
      assert streak == RunFrom(s, today, 0);
    } else if |s| > 1 && s[0] == today - 1 {
      assert s[1] < s[0];
    }
  }

  /** The loop with the grace day the comment describes. */
  method CalculateStreakWithGrace(completedDays: seq<int>, today: int) returns (streak: nat)
    ensures streak == StreakWithGrace(SetOf(completedDays), today)
  {
    if |completedDays| == 0 {
      return 0;
    }
    var s := SortedDays(completedDays);
    var start := if s[0] == today - 1 then today - 1 else today;
    streak := 0;
    var i := 0;
    while i < |s| && s[i] == start - i
      invariant 0 <= i <= |s|
      invariant streak == i
      invariant RunFrom(s, start, 0) == RunFrom(s, start, i)
    {
      streak := streak + 1;
      i := i + 1;
    }
    CorrectedIsStreakWithGrace(s, today);
  }

  // ---------------------------------------------------------------------------
  // Fragment totals

  /** A learner's `user_fragments` row with the name of its guardian, if any. */
  datatype StatRow = StatRow(quantidadeAtual: Option<int>, guardianNome: Option<string>)

  function Quantity(r: StatRow): int { OrElse(r.quantidadeAtual, 0) }

  /** `totalFragments`: the sum of the quantities, a null one counting 0. */
  function TotalFragments(rows: seq<StatRow>): (t: int)
    ensures (forall r <- rows :: Quantity(r) >= 0) ==> t >= 0
    ensures (forall r <- rows :: Quantity(r) <= 15) ==> t <= 15 * |rows|
    ensures rows == [] ==> t == 0
    ensures |rows| == 1 ==> t == Quantity(rows[0])
  {
    if rows == [] then 0
    else
      assert |rows| == 1 ==> rows[..0] == [];
      TotalFragments(rows[..|rows| - 1]) + Quantity(rows[|rows| - 1])
  }

  function NegQuantity(r: StatRow): int { -Quantity(r) }

  /** `activeGuardian`: the guardian name on the first row once the rows are
      sorted by quantity, largest first; null when there are no rows or that row
      names no guardian. */
  function ActiveGuardian(rows: seq<StatRow>): (g: Option<string>)
    ensures rows == [] ==> g.None?
    ensures g.Some? ==> exists r <- rows ::
      r.guardianNome == Some(g.value) && forall r2 <- rows :: Quantity(r2) <= Quantity(r)
  {
    if rows == [] then None
    else
      var sorted := SortBy(rows, NegQuantity);
      var top := sorted[0];
      assert top in multiset(rows);
      assert forall r2 <- rows :: Quantity(r2) <= Quantity(top) by {
        forall r2 | r2 in rows ensures Quantity(r2) <= Quantity(top) {
          assert r2 in multiset(sorted);
          var k :| 0 <= k < |sorted| && sorted[k] == r2;
          if k > 0 { assert NegQuantity(sorted[0]) <= NegQuantity(sorted[k]); }
        }
      }
      NameOf(top)
  }

  /** `row?.fragment?.guardian?.nome` when truthy. */
  function NameOf(r: StatRow): Option<string>
  {
    match r.guardianNome
    case Some(n) => if n != [] then Some(n) else None
    case None => None
  }

  /** The sort is stable, so among rows of the largest quantity the first one
      decides: its guardian's name, or null when it names none. */
  lemma ActiveGuardianFirstMax(rows: seq<StatRow>, i: nat)
    requires i < |rows|
    requires forall j | 0 <= j < |rows| :: Quantity(rows[j]) <= Quantity(rows[i])
    requires forall j | 0 <= j < i :: Quantity(rows[j]) < Quantity(rows[i])
    ensures ActiveGuardian(rows) == NameOf(rows[i])
  {
    forall j | 0 <= j < |rows| ensures NegQuantity(rows[i]) <= NegQuantity(rows[j]) {
    }
    forall j | 0 <= j < i ensures NegQuantity(rows[i]) < NegQuantity(rows[j]) {
    }
    SortByHeadIsFirstMin(rows, NegQuantity, i);
  }

  /** The total of two lists of rows is the sum of their totals: the reduce
      adds every row's quantity once, whatever the order of the rows. */
  lemma {:induction false} TotalFragmentsAppend(a: seq<StatRow>, b: seq<StatRow>)
    ensures TotalFragments(a + b) == TotalFragments(a) + TotalFragments(b)
    decreases |b|
  {
    if b != [] {
      var b0 := b[..|b| - 1];
      assert (a + b)[..|a + b| - 1] == a + b0;
      assert (a + b)[|a + b| - 1] == b[|b| - 1];
      TotalFragmentsAppend(a, b0);
    } else {
      assert a + b == a;
    }
  }

  /** A row holding strictly more fragments than every other row names the
      active guardian. */
  lemma ActiveGuardianOfTop(rows: seq<StatRow>, top: StatRow, name: string)
    requires top in rows && top.guardianNome == Some(name) && name != []
    requires forall r <- rows :: r != top ==> Quantity(r) < Quantity(top)
    ensures ActiveGuardian(rows) == Some(name)
  {
    var sorted := SortBy(rows, NegQuantity);
    assert top in multiset(sorted) && sorted[0] in multiset(rows);
    var k :| 0 <= k < |sorted| && sorted[k] == top;
    if k > 0 {
      assert NegQuantity(sorted[0]) <= NegQuantity(sorted[k]);
    }
  }

  /** `Math.round(totalFragments / 60 * 100)`, the share of the 60 fragments of the
      four guardians. */
  function ProgressPercent(total: int): (p: int)
    ensures 6 * p - 3 <= 10 * total < 6 * p + 3
  {
    (10 * total + 3) / 6
  }

  /** The percentage is 0 with no fragments, 100 with all 60, and never above 100
      within the 60. */
  lemma ProgressPercentRange(total: int)
    requires 0 <= total <= 60
    ensures 0 <= ProgressPercent(total) <= 100
    ensures total == 0 ==> ProgressPercent(total) == 0
    ensures total == 60 ==> ProgressPercent(total) == 100
  {
  }

  /** Every exact value `total * 5 / 3` lies strictly within half a point of
      `ProgressPercent(total)`, so `Math.round` never meets a tie here. */
  lemma ProgressPercentNoTie(total: int)
    ensures 10 * total != 6 * ProgressPercent(total) - 3
  {
  }
}

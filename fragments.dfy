/** Fragment progress and the guardian unlock gate (src/hooks/useFragments.js).
    Each guardian owns one fragment kind with a total; a learner collects up to 15
    of a kind, and a guardian unlocks once the previous guardian's fragment
    percentage reaches the unlock percentage the guardian requires. */
module Fragments {
  import opened Common

  /** The most fragments of one kind a learner can hold. */
  const MaxFragments := 15

  datatype Guardian = Guardian(
    id: int,
    nome: Option<string>,
    area: Option<string>,
    ordemProgressao: int,
    /** `porcentagem_desbloqueio_necessaria`; null reads as `None`. */
    porcentagemNecessaria: Option<int>)

  /** A fragment kind, joined with its guardian (absent when the join is empty). */
  datatype Fragment = Fragment(id: int, guardian: Option<Guardian>, quantidadeTotal: int)

  /** A row of `user_fragments`; a null quantity reads as `None`. */
  datatype UserFragment = UserFragment(id: int, userId: int, fragmentId: int, quantidadeAtual: Option<int>)

  /** A JavaScript number produced by the percentage formula: 0/0 is NaN. */
  datatype Percent = Finite(value: real) | NaN

  /** `fragment.guardian?.ordem_progressao`; `None` stands for `undefined`. */
  function OrdemOf(f: Fragment): Option<int>
  {
    match f.guardian
    case Some(g) => Some(g.ordemProgressao)
    case None => None
  }

  // ---------------------------------------------------------------------------
  // getFragmentProgress and getProgressPercentage

  predicate IsRowOf(fragmentId: int, uf: UserFragment) { uf.fragmentId == fragmentId }

  /** The quantity held of one fragment kind: the first row for it, with a missing
      row or a null or zero quantity reading as 0. */
  function FragmentProgress(ufs: seq<UserFragment>, fragmentId: int): (q: int)
    ensures (forall uf <- ufs :: uf.fragmentId != fragmentId) ==> q == 0
    ensures forall i :: 0 <= i < |ufs| && ufs[i].fragmentId == fragmentId
              && (forall j :: 0 <= j < i ==> ufs[j].fragmentId != fragmentId)
              ==> q == OrElse(ufs[i].quantidadeAtual, 0)
  {
    match Find(ufs, uf => IsRowOf(fragmentId, uf))
    case None => 0
    case Some(uf) => OrElse(uf.quantidadeAtual, 0)
  }

  /** `Math.min((current / total) * 100, 100)` with exact arithmetic: a zero total
      gives NaN for no fragments and Infinity (capped to 100) otherwise. */
  function PercentOf(current: int, total: int): (p: Percent)
    ensures p.Finite? ==> p.value <= 100.0
    ensures p.NaN? <==> total == 0 && current == 0
    ensures total > 0 && current >= 0 ==> p.Finite? && 0.0 <= p.value
    ensures total > 0 && current >= total ==> p == Finite(100.0)
  {
    if total == 0 then
      if current == 0 then NaN else Finite(100.0)
    else
      var x := current as real / total as real * 100.0;
      if total > 0 && current >= total then
        assert x >= 100.0 by { RatioAtLeastOne(current as real, total as real); }
        Finite(100.0)
      else
        Finite(if x <= 100.0 then x else 100.0)
  }

  lemma RatioAtLeastOne(c: real, t: real)
    requires t > 0.0 && c >= t
    ensures c / t * 100.0 >= 100.0
  {
    assert c / t >= 1.0;
  }

  lemma RatioMonotone(c1: real, c2: real, t: real)
    requires t > 0.0 && c1 <= c2
    ensures c1 / t * 100.0 <= c2 / t * 100.0
  {
    assert c1 / t <= c2 / t;
  }

  function ProgressPercentage(ufs: seq<UserFragment>, fragmentId: int, total: int): Percent
  {
    PercentOf(FragmentProgress(ufs, fragmentId), total)
  }

  /** For a positive total, more fragments never give a smaller percentage. */
  lemma PercentMonotone(c1: int, c2: int, total: int)
    requires total > 0 && c1 <= c2
    ensures PercentOf(c1, total).Finite? && PercentOf(c2, total).Finite?
    ensures PercentOf(c1, total).value <= PercentOf(c2, total).value
  {
    RatioMonotone(c1 as real, c2 as real, total as real);
  }

  /** `progress >= required`; a NaN percentage is never at least anything. */
  predicate AtLeast(p: Percent, required: int)
  {
    p.Finite? && p.value >= required as real
  }

  // ---------------------------------------------------------------------------
  // checkGuardianUnlock

  predicate HasOrdem(ordem: int, f: Fragment) { OrdemOf(f) == Some(ordem) }

  /** `porcentagem_desbloqueio_necessaria || 0` of a fragment's guardian. */
  function RequiredPercentage(f: Fragment): (p: int)
    ensures f.guardian.None? || f.guardian.value.porcentagemNecessaria.None? ==> p == 0
    ensures f.guardian.Some? && f.guardian.value.porcentagemNecessaria.Some? ==> p == f.guardian.value.porcentagemNecessaria.value
  {
    match f.guardian
    case Some(g) => OrElse(g.porcentagemNecessaria, 0)
    case None => 0
  }

  /** Whether the guardian at progression order `ordem` is open to the learner. */
  function CheckGuardianUnlock(frs: seq<Fragment>, ufs: seq<UserFragment>, ordem: Option<int>): (r: bool)
    ensures ordem == Some(1) ==> r
    ensures ordem.None? ==> !r
    ensures ordem.Some? && ordem.value != 1 && (forall f <- frs :: !HasOrdem(ordem.value - 1, f)) ==> !r
    ensures ordem.Some? && ordem.value != 1 && (forall f <- frs :: !HasOrdem(ordem.value, f)) ==> !r
  {
    match ordem
    case None => false
    case Some(o) =>
      if o == 1 then true
      else
        match Find(frs, f => HasOrdem(o - 1, f))
        case None => false
        case Some(prev) =>
          var progress := ProgressPercentage(ufs, prev.id, prev.quantidadeTotal);
          match Find(frs, f => HasOrdem(o, f))
          case None => false
          case Some(cur) => AtLeast(progress, RequiredPercentage(cur))
  }

  /** Past the first order, a guardian is open exactly when the first fragment
      of the order before it has reached the percentage the first fragment of
      its own order requires. */
  lemma UnlockIff(frs: seq<Fragment>, ufs: seq<UserFragment>, o: int, i: nat, j: nat)
    requires o != 1
    requires i < |frs| && HasOrdem(o - 1, frs[i]) && forall k :: 0 <= k < i ==> !HasOrdem(o - 1, frs[k])
    requires j < |frs| && HasOrdem(o, frs[j]) && forall k :: 0 <= k < j ==> !HasOrdem(o, frs[k])
    ensures CheckGuardianUnlock(frs, ufs, Some(o)) <==>
      AtLeast(PercentOf(FragmentProgress(ufs, frs[i].id), frs[i].quantidadeTotal), RequiredPercentage(frs[j]))
  {
    FirstFound(frs, f => HasOrdem(o - 1, f), i);
    FirstFound(frs, f => HasOrdem(o, f), j);
  }

  /** The first element satisfying `p` is the one `Find` returns. */
  lemma FirstFound<T>(s: seq<T>, p: T -> bool, i: nat)
    requires i < |s| && p(s[i]) && forall k :: 0 <= k < i ==> !p(s[k])
    ensures Find(s, p) == Some(s[i])
  {
    assert FindIndex(s, p) == Some(i);
  }

  /** A percentage that reached a threshold still reaches it with more fragments. */
  lemma AtLeastMonotone(c1: int, c2: int, total: int, required: int)
    requires 0 <= c1 <= c2 && total >= 0
    ensures AtLeast(PercentOf(c1, total), required) ==> AtLeast(PercentOf(c2, total), required)
  {
    if total > 0 {
      PercentMonotone(c1, c2, total);
    }
  }

  /** Collecting fragments never locks a guardian again: if no kind's quantity
      went down, every open guardian stays open (totals and quantities being the
      non-negative counts the tables hold). */
  lemma UnlockMonotone(frs: seq<Fragment>, before: seq<UserFragment>, after: seq<UserFragment>, ordem: Option<int>)
    requires forall f <- frs :: f.quantidadeTotal >= 0
    requires forall f <- frs :: 0 <= FragmentProgress(before, f.id) <= FragmentProgress(after, f.id)
    ensures CheckGuardianUnlock(frs, before, ordem) ==> CheckGuardianUnlock(frs, after, ordem)
  {
    if ordem.Some? && ordem.value != 1 {
      var o := ordem.value;
      var prev := Find(frs, f => HasOrdem(o - 1, f));
      var cur := Find(frs, f => HasOrdem(o, f));
      if prev.Some? && cur.Some? {
        var p := prev.value;
        AtLeastMonotone(FragmentProgress(before, p.id), FragmentProgress(after, p.id),
          p.quantidadeTotal, RequiredPercentage(cur.value));
      }
    }
  }

  // ---------------------------------------------------------------------------
  // fragmentsWithProgress

  /** A fragment as the page lists it, with the learner's progress attached. */
  datatype FragmentView = FragmentView(fragment: Fragment, quantidadeAtual: int, porcentagem: Percent, desbloqueado: bool)

  function ViewOf(frs: seq<Fragment>, ufs: seq<UserFragment>, f: Fragment): FragmentView
  {
    FragmentView(f, FragmentProgress(ufs, f.id),
      ProgressPercentage(ufs, f.id, f.quantidadeTotal),
      CheckGuardianUnlock(frs, ufs, OrdemOf(f)))
  }

  /** The fragment list with progress: same length and order, each fragment kept
      and only the three progress fields added. */
  function FragmentsWithProgress(frs: seq<Fragment>, ufs: seq<UserFragment>): (vs: seq<FragmentView>)
    ensures |vs| == |frs|
    ensures forall i :: 0 <= i < |frs| ==> vs[i].fragment == frs[i]
    ensures forall i :: 0 <= i < |frs| ==> vs[i].quantidadeAtual == FragmentProgress(ufs, frs[i].id)
    ensures forall i :: 0 <= i < |frs| ==>
      vs[i].porcentagem == PercentOf(vs[i].quantidadeAtual, frs[i].quantidadeTotal)
    ensures forall i :: 0 <= i < |frs| ==> vs[i].desbloqueado == CheckGuardianUnlock(frs, ufs, OrdemOf(frs[i]))
    ensures forall i :: 0 <= i < |frs| && OrdemOf(frs[i]) == Some(1) ==> vs[i].desbloqueado
  {
    seq(|frs|, i requires 0 <= i < |frs| => ViewOf(frs, ufs, frs[i]))
  }

  // ---------------------------------------------------------------------------
  // addFragments

  /** `quantidade_atual` is at most 15 (or null). */
  predicate Capped(uf: UserFragment)
  {
    uf.quantidadeAtual.None? || uf.quantidadeAtual.value <= MaxFragments
  }

  datatype AddOutcome = Added | AddError(message: string)

  function SetQuantity(uf: UserFragment, rowId: int, q: int): UserFragment
  {
    if uf.id == rowId then uf.(quantidadeAtual := Some(q)) else uf
  }

  /** The `update ... eq('id', rowId)` of every row with that id. */
  function UpdateRows(table: seq<UserFragment>, rowId: int, q: int): (r: seq<UserFragment>)
    ensures |r| == |table|
    ensures forall i :: 0 <= i < |table| ==> r[i] == SetQuantity(table[i], rowId, q)
  {
    if table == [] then [] else [SetQuantity(table[0], rowId, q)] + UpdateRows(table[1..], rowId, q)
  }

  /** The table after the award is written: the learner's first row of that kind in
      the page's copy sets the quantity to `min(old + amount, 15)`, and without such a
      row a new row holding `min(amount, 15)` is inserted. */
  function WriteAward(table: seq<UserFragment>, local: seq<UserFragment>, userId: int,
                      fragmentId: int, amount: nat, newRowId: int): (r: seq<UserFragment>)
    ensures |table| <= |r| <= |table| + 1
    ensures forall i :: 0 <= i < |table| ==> r[i] == table[i].(quantidadeAtual := r[i].quantidadeAtual)
    ensures forall i :: 0 <= i < |table| && r[i] != table[i] ==>
      r[i].quantidadeAtual.Some? && r[i].quantidadeAtual.value <= MaxFragments
    ensures |r| == |table| + 1 ==> r[|table|] == UserFragment(newRowId, userId, fragmentId, Some(Min(amount, MaxFragments)))
  {
    match Find(local, uf => IsRowOf(fragmentId, uf))
    case Some(existing) =>
      UpdateRows(table, existing.id, Min(OrElse(existing.quantidadeAtual, 0) + amount, MaxFragments))
    case None =>
      table + [UserFragment(newRowId, userId, fragmentId, Some(Min(amount, MaxFragments)))]
  }

  predicate OwnedBy(userId: int, uf: UserFragment) { uf.userId == userId }

  /** The learner's rows, as the refetch reads them. */
  function RowsOf(table: seq<UserFragment>, userId: int): seq<UserFragment>
  {
    Filter(table, uf => OwnedBy(userId, uf))
  }

  /** The page-side fragment store: the signed-in learner, the page's copy of their
      rows, and the `user_fragments` table it writes to. */
  class FragmentStore {
    var user: Option<int>
    var userFragments: seq<UserFragment>
    var table: seq<UserFragment>

    /** Every stored quantity respects the cap of 15. */
    predicate Valid()
      reads this
    {
      forall uf <- table :: Capped(uf)
    }

    constructor (user: Option<int>, table: seq<UserFragment>)
      requires forall uf <- table :: Capped(uf)
      ensures Valid()
      ensures this.user == user && this.table == table && userFragments == []
    {
      this.user := user;
      this.table := table;
      userFragments := [];
    }

    /** `fetchFragments`: reload the learner's rows (nothing without a learner; a
        failed read keeps the old copy). */
    method Refetch(fails: bool)
      modifies this
      ensures user == old(user) && table == old(table)
      ensures userFragments == if user.Some? && !fails then RowsOf(table, user.value) else old(userFragments)
    {
      if user.Some? && !fails {
        userFragments := RowsOf(table, user.value);
      }
    }

    /** `addFragments(fragmentId, amount)`. `newRowId` is the id the database gives
        an inserted row; `writeFails` and `refetchFails` say whether the write and
        the reload fail. */
    method AddFragments(fragmentId: int, amount: nat, newRowId: int, writeFails: bool, refetchFails: bool)
      returns (r: AddOutcome)
      requires Valid()
      modifies this
      ensures Valid()
      ensures user == old(user)
      ensures old(user).None? ==> r.AddError? && table == old(table) && userFragments == old(userFragments)
      ensures old(user).Some? && writeFails ==> r.AddError? && table == old(table) && userFragments == old(userFragments)
      ensures old(user).Some? && !writeFails ==>
        && r == Added
        && table == WriteAward(old(table), old(userFragments), old(user).value, fragmentId, amount, newRowId)
        && userFragments == if refetchFails then old(userFragments) else RowsOf(table, user.value)
    {
      if user.None? {
        return AddError("Usuário não logado");
      }
      var newTable := WriteAward(table, userFragments, user.value, fragmentId, amount, newRowId);
      WriteAwardCapped(table, userFragments, user.value, fragmentId, amount, newRowId);
      if writeFails {
        return AddError("write failed");
      }
      table := newTable;
      Refetch(refetchFails);
      r := Added;
    }
  }

  /** Writing an award keeps every stored quantity within the cap. */
  lemma WriteAwardCapped(table: seq<UserFragment>, local: seq<UserFragment>, userId: int,
                         fragmentId: int, amount: nat, newRowId: int)
    requires forall uf <- table :: Capped(uf)
    ensures forall uf <- WriteAward(table, local, userId, fragmentId, amount, newRowId) :: Capped(uf)
  {
  }

  // ---------------------------------------------------------------------------
  // What an award does to the learner's progress

  /** Row ids identify rows. */
  predicate UniqueIds(table: seq<UserFragment>)
  {
    forall a <- table, b <- table :: a.id == b.id ==> a == b
  }

  lemma {:induction false} RowsOfUpdate(table: seq<UserFragment>, userId: int, rowId: int, q: int)
    ensures RowsOf(UpdateRows(table, rowId, q), userId) == UpdateRows(RowsOf(table, userId), rowId, q)
  {
    if table != [] {
      RowsOfUpdate(table[1..], userId, rowId, q);
      var t := UpdateRows(table, rowId, q);
      assert t[1..] == UpdateRows(table[1..], rowId, q);
    }
  }

  lemma {:induction false} FindIndexUpdate(rows: seq<UserFragment>, rowId: int, q: int, fragmentId: int)
    ensures FindIndex(UpdateRows(rows, rowId, q), uf => IsRowOf(fragmentId, uf))
         == FindIndex(rows, uf => IsRowOf(fragmentId, uf))
  {
    if rows != [] {
      FindIndexUpdate(rows[1..], rowId, q, fragmentId);
      var t := UpdateRows(rows, rowId, q);
      assert t[1..] == UpdateRows(rows[1..], rowId, q);
    }
  }

  lemma {:induction false} FindIndexSnoc<T>(s: seq<T>, x: T, p: T -> bool)
    ensures FindIndex(s + [x], p) ==
      if FindIndex(s, p).Some? then FindIndex(s, p)
      else if p(x) then Some(|s|) else None
  {
    if s == [] {
      assert s + [x] == [x];
    } else {
      assert (s + [x])[0] == s[0];
      assert (s + [x])[1..] == s[1..] + [x];
      FindIndexSnoc(s[1..], x, p);
    }
  }

  /** The kind the award is for ends with `min(held + amount, 15)` fragments,
      judged from the learner's freshly loaded rows, and every other kind keeps
      what it had. */
  lemma AwardProgress(table: seq<UserFragment>, userId: int, fragmentId: int, amount: nat, newRowId: int)
    requires UniqueIds(table)
    ensures var local := RowsOf(table, userId);
      var after := RowsOf(WriteAward(table, local, userId, fragmentId, amount, newRowId), userId);
      && FragmentProgress(after, fragmentId) == Min(FragmentProgress(local, fragmentId) + amount, MaxFragments)
      && forall other :: other != fragmentId ==> FragmentProgress(after, other) == FragmentProgress(local, other)
  {
    var local := RowsOf(table, userId);
    match Find(local, uf => IsRowOf(fragmentId, uf))
    case Some(existing) => AwardProgressExisting(table, userId, fragmentId, amount, newRowId, existing);
    case None => AwardProgressNew(table, userId, fragmentId, amount, newRowId);
  }

  /** The award raises the learner's row of that kind. */
  lemma AwardProgressExisting(table: seq<UserFragment>, userId: int, fragmentId: int, amount: nat, newRowId: int,
                              existing: UserFragment)
    requires UniqueIds(table)
    requires Find(RowsOf(table, userId), uf => IsRowOf(fragmentId, uf)) == Some(existing)
    ensures var local := RowsOf(table, userId);
      var after := RowsOf(WriteAward(table, local, userId, fragmentId, amount, newRowId), userId);
      && FragmentProgress(after, fragmentId) == Min(FragmentProgress(local, fragmentId) + amount, MaxFragments)
      && forall other :: other != fragmentId ==> FragmentProgress(after, other) == FragmentProgress(local, other)
  {
    var local := RowsOf(table, userId);
    var after := RowsOf(WriteAward(table, local, userId, fragmentId, amount, newRowId), userId);
    var k := FindIndex(local, uf => IsRowOf(fragmentId, uf));
    var q := Min(OrElse(existing.quantidadeAtual, 0) + amount, MaxFragments);
    RowsOfUpdate(table, userId, existing.id, q);
    assert after == UpdateRows(local, existing.id, q);
    FindIndexUpdate(local, existing.id, q, fragmentId);
    assert after[k.value] == SetQuantity(existing, existing.id, q);
    forall other | other != fragmentId
      ensures FragmentProgress(after, other) == FragmentProgress(local, other)
    {
      FindIndexUpdate(local, existing.id, q, other);
      var j := FindIndex(local, uf => IsRowOf(other, uf));
      if j.Some? {
        assert local[j.value] in table && existing in table;
        assert after[j.value] == local[j.value];
      }
    }
  }

  /** The award inserts the learner's first row of that kind. */
  lemma AwardProgressNew(table: seq<UserFragment>, userId: int, fragmentId: int, amount: nat, newRowId: int)
    requires Find(RowsOf(table, userId), uf => IsRowOf(fragmentId, uf)).None?
    ensures var local := RowsOf(table, userId);
      var after := RowsOf(WriteAward(table, local, userId, fragmentId, amount, newRowId), userId);
      && FragmentProgress(after, fragmentId) == Min(FragmentProgress(local, fragmentId) + amount, MaxFragments)
      && forall other :: other != fragmentId ==> FragmentProgress(after, other) == FragmentProgress(local, other)
  {
    var local := RowsOf(table, userId);
    var after := RowsOf(WriteAward(table, local, userId, fragmentId, amount, newRowId), userId);
    var row := UserFragment(newRowId, userId, fragmentId, Some(Min(amount, MaxFragments)));
    FilterAppend(table, [row], uf => OwnedBy(userId, uf));
    assert after == local + [row];
    FindIndexSnoc(local, row, uf => IsRowOf(fragmentId, uf));
    forall other | other != fragmentId
      ensures FragmentProgress(after, other) == FragmentProgress(local, other)
    {
      FindIndexSnoc(local, row, uf => IsRowOf(other, uf));
      var j := FindIndex(local, uf => IsRowOf(other, uf));
      if j.Some? {
        assert after[j.value] == local[j.value];
      }
    }
  }
}

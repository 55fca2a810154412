/** What leaf selection guarantees: the chosen leaves are drawn from the candidates without
    repetition and reach the target exactly, or at least reach it in the minimum-amount case. */
module SelectionFacts {
  import opened Base
  import opened TreeTables
  import opened LeafSelection
  import opened TreeOps

  lemma {:induction false} InsertPermutes(x: SlimLeaf, s: seq<SlimLeaf>)
    ensures multiset(InsertDescending(x, s)) == multiset{x} + multiset(s)
    decreases s
  {
    if s != [] {
      assert s == [s[0]] + s[1..];
      if s[0].value > x.value {
        InsertPermutes(x, s[1..]);
      }
    }
  }

  lemma {:induction false} SortPermutes(s: seq<SlimLeaf>)
    ensures multiset(SortDescending(s)) == multiset(s)
    decreases s
  {
    if s != [] {
      SortPermutes(s[1..]);
      InsertPermutes(s[0], SortDescending(s[1..]));
      assert s == [s[0]] + s[1..];
    }
  }

  lemma {:induction false} GreedyPicks(s: seq<SlimLeaf>, target: nat)
    requires target > 0 && Greedy(s, target).Some?
    ensures multiset(Greedy(s, target).value) <= multiset(s)
    ensures Total(Greedy(s, target).value) == target
    decreases s
  {
    assert s == [s[0]] + s[1..];
    if s[0].value > target {
      GreedyPicks(s[1..], target);
    } else if s[0].value < target {
      GreedyPicks(s[1..], target - s[0].value);
    }
  }

  lemma {:induction false} PowersOfTwoPicks(s: seq<SlimLeaf>)
    ensures multiset(PowersOfTwo(s)) <= multiset(s)
    decreases s
  {
    if s != [] {
      PowersOfTwoPicks(s[1..]);
      assert s == [s[0]] + s[1..];
    }
  }

  lemma {:induction false} SinglePicks(s: seq<SlimLeaf>, target: nat)
    requires FindSingle(s, target).Some?
    ensures FindSingle(s, target).value in s && FindSingle(s, target).value.value == target
    decreases s
  {
    if s[0].value != target {
      SinglePicks(s[1..], target);
    }
  }

  /** An exact selection is drawn from the candidates and totals the target. */
  lemma ExactPicks(s: seq<SlimLeaf>, target: nat)
    requires ExactAmount(s, target).Ok?
    ensures multiset(ExactAmount(s, target).value) <= multiset(s)
    ensures Total(ExactAmount(s, target).value) == target
  {
    if FindSingle(s, target).Some? {
      SinglePicks(s, target);
    } else {
      SortPermutes(s);
      if Greedy(SortDescending(s), target).Some? {
        GreedyPicks(SortDescending(s), target);
      } else {
        SortPermutes(PowersOfTwo(s));
        PowersOfTwoPicks(s);
        GreedyPicks(SortDescending(PowersOfTwo(s)), target);
      }
    }
  }

  lemma SwapRemovePermutes(s: seq<SlimLeaf>, i: nat)
    requires i < |s|
    ensures multiset(SwapRemove(s, i)) == multiset(s) - multiset{s[i]}
  {
    var last := |s| - 1;
    var swapped := s[i := s[last]];
    assert swapped == swapped[..last] + [swapped[last]];
    assert swapped[last] == s[last];
    assert multiset(swapped) == multiset(s) - multiset{s[i]} + multiset{s[last]};
    assert multiset(swapped) == multiset(swapped[..last] + [s[last]]) == multiset(swapped[..last]) + multiset{s[last]};
    var kept := SwapRemove(s, i);
    assert kept == swapped[..last];
    forall y ensures multiset(kept)[y] == (multiset(s) - multiset{s[i]})[y] {
      assert multiset(kept)[y] + multiset{s[last]}[y] == multiset(swapped)[y];
    }
  }

  lemma {:induction false} DenominationPicks(s: seq<SlimLeaf>, ds: seq<U64>)
    requires Denominations(s, ds).Ok?
    ensures multiset(Denominations(s, ds).value) <= multiset(s)
    ensures |Denominations(s, ds).value| == |ds|
    ensures forall i :: 0 <= i < |ds| ==> Denominations(s, ds).value[i].value == ds[i]
    decreases ds
  {
    if ds != [] {
      var i := Position(s, ds[0]);
      SwapRemovePermutes(s, i);
      DenominationPicks(SwapRemove(s, i), ds[1..]);
    }
  }

  lemma {:induction false} DroppingPicks(s: seq<SlimLeaf>, ids: set<Id>)
    ensures multiset(Dropping(s, ids)) <= multiset(s)
    ensures forall l :: l in Dropping(s, ids) ==> l.id !in ids
    decreases s
  {
    if s != [] {
      DroppingPicks(s[1..], ids);
      assert s == [s[0]] + s[1..];
    }
  }

  /** A second choice from what the first left. */
  lemma TwoPicks(s: seq<SlimLeaf>, a: seq<SlimLeaf>, f: seq<SlimLeaf>)
    requires multiset(a) <= multiset(s) && multiset(f) <= multiset(Dropping(s, SlimIds(a)))
    ensures multiset(a + f) <= multiset(s)
  {
    var rest := Dropping(s, SlimIds(a));
    DroppingPicks(s, SlimIds(a));
    forall x ensures multiset(a + f)[x] <= multiset(s)[x] {
      if x in f {
        assert x in multiset(f) && x in multiset(rest);
        assert x !in a;
      }
    }
  }

  /** What a selection owes its target. */
  ghost predicate MeetsTarget(s: seq<SlimLeaf>, target: Option<TargetAmounts>, r: TargetLeaves)
  {
    match target
    case None => r.All() == s
    case Some(AmountAndFee(amount, fee)) =>
      && Total(r.amountLeaves) == amount
      && (fee.Some? <==> r.feeLeaves.Some?)
      && (fee.Some? && r.feeLeaves.Some? ==> Total(r.feeLeaves.value) == fee.value)
    case Some(ExactDenominations(ds)) =>
      |r.All()| == |ds| && forall i :: 0 <= i < |ds| ==> r.All()[i].value == ds[i]
  }

  /** Whatever the target, no leaf is chosen that was not offered, none twice, and the target is
      met: amount and fee each exactly, denominations one by one. */
  lemma SelectionPicks(s: seq<SlimLeaf>, target: Option<TargetAmounts>)
    requires SelectByTargets(s, target).Ok?
    ensures multiset(SelectByTargets(s, target).value.All()) <= multiset(s)
    ensures MeetsTarget(s, target, SelectByTargets(s, target).value)
  {
    match target
    case None => assert s + [] == s;
    case Some(AmountAndFee(amount, fee)) =>
      ExactPicks(s, amount);
      var a := ExactAmount(s, amount).value;
      if fee.None? {
        assert a + [] == a;
      } else {
        ExactPicks(Dropping(s, SlimIds(a)), fee.value);
        TwoPicks(s, a, ExactAmount(Dropping(s, SlimIds(a)), fee.value).value);
      }
    case Some(ExactDenominations(ds)) =>
      DenominationPicks(s, ds);
      assert Denominations(s, ds).value + [] == Denominations(s, ds).value;
  }

  /** The minimum selection is the shortest prefix that reaches the target. */
  lemma {:induction false} MinPrefixPicks(s: seq<SlimLeaf>, target: nat)
    requires 0 < target <= Total(s)
    ensures MinPrefix(s, target) <= s && Total(MinPrefix(s, target)) >= target
    ensures forall n :: 0 <= n < |MinPrefix(s, target)| ==> Total(s[..n]) < target
    decreases s
  {
    if s[0].value < target {
      MinPrefixPicks(s[1..], target - s[0].value);
      forall n | 0 < n < |MinPrefix(s, target)| ensures Total(s[..n]) < target {
        assert s[..n][1..] == s[1..][..n - 1];
      }
    }
  }

  lemma {:induction false} TotalConcat(a: seq<SlimLeaf>, b: seq<SlimLeaf>)
    ensures Total(a + b) == Total(a) + Total(b)
    decreases a
  {
    if a == [] {
      assert a + b == b;
    } else {
      TotalConcat(a[1..], b);
      assert (a + b)[1..] == a[1..] + b;
    }
  }

  lemma DistinctMeansOnce(s: seq<SlimLeaf>, x: SlimLeaf)
    requires Distinct(IdsOf(s)) && x in s
    ensures multiset(s)[x] == 1
  {
    var i :| 0 <= i < |s| && s[i] == x;
    assert s == s[..i] + [x] + s[i + 1..];
    assert forall j :: 0 <= j < |s| ==> IdsOf(s)[j] == s[j].id;
    assert x !in s[..i] && x !in s[i + 1..];
  }

  lemma TwiceMeansTwo(r: seq<SlimLeaf>, i: nat, j: nat)
    requires i < j < |r| && r[i] == r[j]
    ensures multiset(r)[r[i]] >= 2
  {
    assert r == r[..j] + [r[j]] + r[j + 1..];
    assert r[i] in r[..j];
  }

  /** A choice drawn from rows with distinct ids has distinct ids, all among the rows. */
  lemma ChoiceIsDistinct(s: seq<SlimLeaf>, r: seq<SlimLeaf>)
    requires Distinct(IdsOf(s)) && multiset(r) <= multiset(s)
    ensures Distinct(IdsOf(r)) && forall id :: id in IdsOf(r) ==> id in SlimIds(s)
  {
    forall l | l in r ensures l in s { assert l in multiset(r) && l in multiset(s); }
    forall i, j | 0 <= i < j < |r| ensures r[i].id != r[j].id {
      if r[i].id == r[j].id {
        var a, b := r[i], r[j];
        assert a in r && b in r && a in s && b in s;
        var p :| 0 <= p < |s| && s[p] == a;
        var q :| 0 <= q < |s| && s[q] == b;
        assert IdsOf(s)[p] == IdsOf(s)[q];
        DistinctMeansOnce(s, a);
        TwiceMeansTwo(r, i, j);
      }
    }
  }

  /** The ids a decision reserves are distinct and come from the rows read. */
  lemma DecisionPicks(available: int, pending: int, rows: seq<SlimLeaf>, target: Option<TargetAmounts>, exactOnly: bool)
    requires Distinct(IdsOf(rows)) && Decide(available, pending, rows, target, exactOnly).Reserve?
    ensures Distinct(Decide(available, pending, rows, target, exactOnly).ids)
    ensures forall id :: id in Decide(available, pending, rows, target, exactOnly).ids ==> id in SlimIds(rows)
  {
    if SelectByTargets(rows, target).Ok? {
      SelectionPicks(rows, target);
      ChoiceIsDistinct(rows, SelectByTargets(rows, target).value.All());
    } else {
      MinPrefixPicks(rows, TotalSats(target));
      var p := MinPrefix(rows, TotalSats(target));
      assert rows == p + rows[|p|..];
      ChoiceIsDistinct(rows, p);
    }
  }

  lemma {:induction false} ValuesTotal(s: seq<SlimLeaf>, ds: seq<U64>)
    requires |s| == |ds| && forall i :: 0 <= i < |ds| ==> s[i].value == ds[i]
    ensures Total(s) == SeqTotal(ds)
    decreases s
  {
    if s != [] {
      assert forall i :: 0 <= i < |ds| - 1 ==> s[1..][i] == s[i + 1] && ds[1..][i] == ds[i + 1];
      ValuesTotal(s[1..], ds[1..]);
    }
  }

  /** What is selected for a target is worth what the target comes to, as long as that fits. */
  lemma SelectionTotals(s: seq<SlimLeaf>, target: TargetAmounts)
    requires SelectByTargets(s, Some(target)).Ok?
    requires Total(SelectByTargets(s, Some(target)).value.All()) < TWO64
    ensures Total(SelectByTargets(s, Some(target)).value.All()) == TotalSats(Some(target))
  {
    SelectionPicks(s, Some(target));
    MeetingTotals(s, target, SelectByTargets(s, Some(target)).value);
  }

  lemma MeetingTotals(s: seq<SlimLeaf>, target: TargetAmounts, r: TargetLeaves)
    requires MeetsTarget(s, Some(target), r) && Total(r.All()) < TWO64
    ensures Total(r.All()) == TotalSats(Some(target))
  {
    match target
    case AmountAndFee(amount, fee) =>
      var forFee := if r.feeLeaves.Some? then r.feeLeaves.value else [];
      TotalConcat(r.amountLeaves, forFee);
      assert r.All() == r.amountLeaves + forFee;
    case ExactDenominations(ds) =>
      ValuesTotal(r.All(), ds);
  }

  /** The ids are those of candidates that meet the target. */
  ghost predicate MetBy(rows: seq<SlimLeaf>, target: Option<TargetAmounts>, ids: seq<Id>, r: TargetLeaves)
  {
    ids == IdsOf(r.All()) && r.All() != [] && multiset(r.All()) <= multiset(rows) && MeetsTarget(rows, target, r)
  }

  /** The ids are those of the first `n` rows, which reach the amount, and no fewer of them do. */
  ghost predicate ReachedBy(rows: seq<SlimLeaf>, needed: nat, ids: seq<Id>, n: nat)
  {
    0 < n <= |rows| && ids == IdsOf(rows[..n]) && Total(rows[..n]) >= needed
    && forall m :: 0 <= m < n ==> Total(rows[..m]) < needed
  }

  /** What an attempt decides to reserve: exactly, leaves that meet the target; by minimum, the
      shortest prefix of the rows that reaches it. */
  lemma DecisionMeets(available: int, pending: int, rows: seq<SlimLeaf>, target: Option<TargetAmounts>, exactOnly: bool)
    requires Decide(available, pending, rows, target, exactOnly).Reserve?
    ensures var d := Decide(available, pending, rows, target, exactOnly);
      if d.minimum then exists n :: ReachedBy(rows, TotalSats(target), d.ids, n)
      else exists r :: MetBy(rows, target, d.ids, r)
  {
    var d := Decide(available, pending, rows, target, exactOnly);
    if SelectByTargets(rows, target).Ok? {
      SelectionPicks(rows, target);
      assert MetBy(rows, target, d.ids, SelectByTargets(rows, target).value);
    } else {
      var p := MinPrefix(rows, TotalSats(target));
      MinPrefixPicks(rows, TotalSats(target));
      assert p == rows[..|p|];
      assert ReachedBy(rows, TotalSats(target), d.ids, |p|);
    }
  }

  lemma SelectsNothing(rows: seq<SlimLeaf>, target: Option<TargetAmounts>, r: TargetLeaves)
    requires MeetsTarget(rows, target, r)
    requires target.Some? && target.value.AmountAndFee? ==> target.value.amount > 0
    ensures r.All() == [] <==> (target.None? && rows == []) || target == Some(ExactDenominations([]))
  {}

  /** An attempt finds nothing to reserve exactly when it asks for everything and there is nothing,
      or for no denominations. */
  lemma NothingToReserveIff(available: int, pending: int, rows: seq<SlimLeaf>, target: Option<TargetAmounts>,
                            exactOnly: bool)
    requires FitsI64(available) && FitsI64(pending)
    ensures Decide(available, pending, rows, target, exactOnly) == NonReservable <==>
      (target.None? && rows == []) || target == Some(ExactDenominations([]))
  {
    if SelectByTargets(rows, target).Ok? {
      SelectionPicks(rows, target);
      SelectsNothing(rows, target, SelectByTargets(rows, target).value);
    }
  }
}

/** The slim candidate query: leaves up to the target plus the smallest one above it. It loses
    nothing: the exact search answers as it would on the whole pool, and the minimum search
    succeeds exactly when the whole pool reaches the target. */
module SlimQuery {
  import opened Base
  import opened TreeTables
  import opened LeafSelection
  import opened SelectionFacts
  import opened TreeOps
  import opened TreeInvariants

  /** The slim rows among the rows of the whole pool. */
  function SlimOf(pool: seq<SlimLeaf>, bound: nat, over: Option<Id>): seq<SlimLeaf>
  {
    if pool == [] then []
    else if pool[0].value <= bound || over == Some(pool[0].id) then Prepend(pool[0], SlimOf(pool[1..], bound, over))
    else SlimOf(pool[1..], bound, over)
  }

  predicate IsSmallestAbove(pool: seq<SlimLeaf>, bound: nat, id: Id, l: SlimLeaf)
  {
    l in pool && l.id == id && l.value > bound
    && forall m :: m in pool && (m.value > bound || m.id == id) ==> l.value <= m.value
  }

  /** `over` names one of the smallest leaves above the bound, if there is one. */
  ghost predicate PicksSmallestOver(pool: seq<SlimLeaf>, bound: nat, over: Option<Id>)
  {
    match over
    case None => forall l :: l in pool ==> l.value <= bound
    case Some(id) => exists l :: IsSmallestAbove(pool, bound, id, l)
  }

  function UpTo(s: seq<SlimLeaf>, bound: nat): seq<SlimLeaf>
  {
    if s == [] then []
    else if s[0].value <= bound then Prepend(s[0], UpTo(s[1..], bound)) else UpTo(s[1..], bound)
  }

  // ----- the exact search looks at nothing above its target ----------------------------------------

  lemma {:induction false} UpToInsert(x: SlimLeaf, s: seq<SlimLeaf>, bound: nat)
    ensures UpTo(InsertDescending(x, s), bound)
      == if x.value <= bound then InsertDescending(x, UpTo(s, bound)) else UpTo(s, bound)
    decreases s
  {
    if s != [] {
      if s[0].value > x.value {
        UpToInsert(x, s[1..], bound);
        assert InsertDescending(x, s)[1..] == InsertDescending(x, s[1..]);
      } else {
      }
    }
  }

  /** Keeping the small leaves and sorting commute: the sort is stable. */
  lemma {:induction false} UpToSort(s: seq<SlimLeaf>, bound: nat)
    ensures UpTo(SortDescending(s), bound) == SortDescending(UpTo(s, bound))
    decreases s
  {
    if s != [] {
      UpToSort(s[1..], bound);
      UpToInsert(s[0], SortDescending(s[1..]), bound);
    }
  }

  lemma {:induction false} GreedyUpTo(s: seq<SlimLeaf>, target: nat, bound: nat)
    requires target <= bound
    ensures Greedy(s, target) == Greedy(UpTo(s, bound), target)
    decreases s
  {
    if s != [] {
      if s[0].value > target {
        GreedyUpTo(s[1..], target, bound);
      } else if s[0].value < target {
        GreedyUpTo(s[1..], target - s[0].value, bound);
      }
    }
  }

  lemma {:induction false} SingleUpTo(s: seq<SlimLeaf>, target: nat, bound: nat)
    requires target <= bound
    ensures FindSingle(s, target) == FindSingle(UpTo(s, bound), target)
    decreases s
  {
    if s != [] {
      SingleUpTo(s[1..], target, bound);
    }
  }

  lemma {:induction false} PowersUpTo(s: seq<SlimLeaf>, bound: nat)
    ensures UpTo(PowersOfTwo(s), bound) == PowersOfTwo(UpTo(s, bound))
    decreases s
  {
    if s != [] {
      PowersUpTo(s[1..], bound);
    }
  }

  lemma {:induction false} AllPowers(s: seq<SlimLeaf>)
    ensures |PowersOfTwo(s)| <= |s| && (|PowersOfTwo(s)| == |s| ==> PowersOfTwo(s) == s)
    decreases s
  {
    if s != [] {
      AllPowers(s[1..]);
    }
  }

  /** The second greedy pass may as well always run. */
  lemma MultipleIsTwoPasses(s: seq<SlimLeaf>, target: nat)
    ensures FindMultiple(s, target) ==
      if Greedy(SortDescending(s), target).Some? then Greedy(SortDescending(s), target)
      else Greedy(SortDescending(PowersOfTwo(s)), target)
  {
    AllPowers(s);
  }

  /** Two candidate lists that agree up to the target, and agree on reaching it, select alike. */
  lemma ExactAgrees(a: seq<SlimLeaf>, b: seq<SlimLeaf>, target: nat, bound: nat)
    requires target <= bound && UpTo(a, bound) == UpTo(b, bound)
    requires Total(a) < target <==> Total(b) < target
    ensures ExactAmount(a, target) == ExactAmount(b, target)
  {
    SingleUpTo(a, target, bound);
    SingleUpTo(b, target, bound);
    MultipleIsTwoPasses(a, target);
    MultipleIsTwoPasses(b, target);
    UpToSort(a, bound);
    UpToSort(b, bound);
    GreedyUpTo(SortDescending(a), target, bound);
    GreedyUpTo(SortDescending(b), target, bound);
    PowersUpTo(a, bound);
    PowersUpTo(b, bound);
    UpToSort(PowersOfTwo(a), bound);
    UpToSort(PowersOfTwo(b), bound);
    GreedyUpTo(SortDescending(PowersOfTwo(a)), target, bound);
    GreedyUpTo(SortDescending(PowersOfTwo(b)), target, bound);
  }

  // ----- the slim rows against the pool ------------------------------------------------------------

  lemma {:induction false} SlimUpTo(pool: seq<SlimLeaf>, bound: nat, over: Option<Id>)
    ensures UpTo(SlimOf(pool, bound, over), bound) == UpTo(pool, bound)
    decreases pool
  {
    if pool != [] {
      SlimUpTo(pool[1..], bound, over);
    }
  }

  lemma {:induction false} SlimTotal(pool: seq<SlimLeaf>, bound: nat, over: Option<Id>)
    ensures Total(SlimOf(pool, bound, over)) <= Total(pool)
    ensures (forall l :: l in pool ==> l.value <= bound) ==> SlimOf(pool, bound, over) == pool
    ensures forall l :: l in pool && over == Some(l.id) ==> l.value <= Total(SlimOf(pool, bound, over))
    decreases pool
  {
    if pool != [] {
      assert pool == [pool[0]] + pool[1..];
      SlimTotal(pool[1..], bound, over);
    }
  }

  /** The slim rows reach a target up to the bound exactly when the whole pool does. */
  lemma SlimReachesIff(pool: seq<SlimLeaf>, bound: nat, over: Option<Id>, target: nat)
    requires PicksSmallestOver(pool, bound, over) && target <= bound
    ensures Total(SlimOf(pool, bound, over)) >= target <==> Total(pool) >= target
  {
    SlimTotal(pool, bound, over);
  }

  lemma {:induction false} SlimDropping(pool: seq<SlimLeaf>, bound: nat, over: Option<Id>, ids: set<Id>)
    ensures Dropping(SlimOf(pool, bound, over), ids) == SlimOf(Dropping(pool, ids), bound, over)
    decreases pool
  {
    if pool != [] {
      SlimDropping(pool[1..], bound, over, ids);
    }
  }

  lemma {:induction false} DroppingKeeps(s: seq<SlimLeaf>, ids: set<Id>)
    ensures forall l :: l in s && l.id !in ids ==> l in Dropping(s, ids)
    decreases s
  {
    if s != [] {
      DroppingKeeps(s[1..], ids);
    }
  }

  lemma {:induction false} SmallChoice(r: seq<SlimLeaf>, l: SlimLeaf)
    requires l in r
    ensures l.value <= Total(r)
    decreases r
  {
    if l != r[0] {
      SmallChoice(r[1..], l);
    }
  }

  /** Taking out leaves that are not above the bound leaves the smallest one above in place. */
  lemma StillPicksSmallestOver(pool: seq<SlimLeaf>, bound: nat, over: Option<Id>, chosen: seq<SlimLeaf>)
    requires PicksSmallestOver(pool, bound, over) && Distinct(IdsOf(pool))
    requires multiset(chosen) <= multiset(pool) && Total(chosen) <= bound
    ensures PicksSmallestOver(Dropping(pool, SlimIds(chosen)), bound, over)
  {
    var ids := SlimIds(chosen);
    DroppingPicks(pool, ids);
    DroppingKeeps(pool, ids);
    var rest := Dropping(pool, ids);
    forall l | l in rest ensures l in pool { assert l in multiset(rest) && l in multiset(pool); }
    if over.Some? {
      var l :| IsSmallestAbove(pool, bound, over.value, l);
      forall c | c in chosen ensures c.id != l.id {
        SmallChoice(chosen, c);
        assert c in multiset(chosen) && c in multiset(pool);
      }
      assert IsSmallestAbove(rest, bound, over.value, l);
    }
  }

  /** On the slim rows an amount-and-fee target, or no target, selects the very leaves, or fails
      with the very error, that it would on the whole pool. */
  lemma SlimSelectsAlike(pool: seq<SlimLeaf>, over: Option<Id>, target: Option<TargetAmounts>)
    requires Distinct(IdsOf(pool)) && PicksSmallestOver(pool, SlimBound(target), over)
    requires forall l :: l in pool ==> l.value <= I64_MAX
    requires target.Some? ==> target.value.AmountAndFee?
    ensures SelectByTargets(SlimOf(pool, SlimBound(target), over), target) == SelectByTargets(pool, target)
  {
    var bound := SlimBound(target);
    var slim := SlimOf(pool, bound, over);
    if bound == I64_MAX {
      SlimTotal(pool, bound, over);
    } else {
      var AmountAndFee(amount, fee) := target.value;
      assert amount + FeeOf(fee) == bound;
      SlimUpTo(pool, bound, over);
      SlimReachesIff(pool, bound, over, amount);
      ExactAgrees(slim, pool, amount, bound);
      if ExactAmount(pool, amount).Ok? && fee.Some? {
        ExactPicks(pool, amount);
        var chosen := ExactAmount(pool, amount).value;
        var rest := Dropping(pool, SlimIds(chosen));
        StillPicksSmallestOver(pool, bound, over, chosen);
        SlimDropping(pool, bound, over, SlimIds(chosen));
        SlimUpTo(rest, bound, over);
        SlimReachesIff(rest, bound, over, fee.value);
        ExactAgrees(Dropping(slim, SlimIds(chosen)), rest, fee.value, bound);
      }
    }
  }

  /** Every choice of pool leaves that totals no more than the target lies inside the slim rows,
      also when the target is above what the column can hold. */
  lemma SlimHoldsEveryChoice(pool: seq<SlimLeaf>, target: Option<TargetAmounts>, over: Option<Id>,
                             choice: seq<SlimLeaf>)
    requires forall l :: l in pool ==> l.value <= I64_MAX
    requires multiset(choice) <= multiset(pool) && Total(choice) <= SlimMaxTarget(target)
    ensures forall l :: l in choice ==> l in SlimOf(pool, SlimBound(target), over)
  {
    forall l | l in choice ensures l in SlimOf(pool, SlimBound(target), over) {
      SmallChoice(choice, l);
      assert l in multiset(choice) && l in multiset(pool);
      SlimKeepsSmall(pool, SlimBound(target), over, l);
    }
  }

  lemma {:induction false} SlimKeepsSmall(pool: seq<SlimLeaf>, bound: nat, over: Option<Id>, l: SlimLeaf)
    requires l in pool && l.value <= bound
    ensures l in SlimOf(pool, bound, over)
    decreases pool
  {
    if pool[0] != l {
      SlimKeepsSmall(pool[1..], bound, over, l);
    }
  }

  // ----- denominations -----------------------------------------------------------------------------

  /** How many leaves have this value. */
  function Offered(s: seq<SlimLeaf>, v: nat): nat
  {
    if s == [] then 0 else (if s[0].value == v then 1 else 0) + Offered(s[1..], v)
  }

  /** How often this denomination is asked for. */
  function Wanted(ds: seq<U64>, v: nat): nat
  {
    if ds == [] then 0 else (if ds[0] == v then 1 else 0) + Wanted(ds[1..], v)
  }

  lemma {:induction false} OfferedSnoc(s: seq<SlimLeaf>, v: nat)
    requires s != []
    ensures Offered(s, v) == Offered(s[..|s| - 1], v) + (if s[|s| - 1].value == v then 1 else 0)
    decreases s
  {
    if |s| > 1 {
      OfferedSnoc(s[1..], v);
      assert s[1..][..|s| - 2] == s[..|s| - 1][1..];
    }
  }

  lemma {:induction false} OfferedUpdate(s: seq<SlimLeaf>, i: nat, x: SlimLeaf, v: nat)
    requires i < |s|
    ensures Offered(s[i := x], v)
      == Offered(s, v) - (if s[i].value == v then 1 else 0) + (if x.value == v then 1 else 0)
    decreases s
  {
    if i == 0 {
      assert s[0 := x][1..] == s[1..];
    } else {
      OfferedUpdate(s[1..], i - 1, x, v);
      assert s[i := x][1..] == s[1..][i - 1 := x];
    }
  }

  lemma {:induction false} OfferedIff(s: seq<SlimLeaf>, v: nat)
    ensures Offered(s, v) > 0 <==> Position(s, v) < |s|
    decreases s
  {
    if s != [] {
      OfferedIff(s[1..], v);
    }
  }

  lemma OfferedSwapRemove(s: seq<SlimLeaf>, i: nat, v: nat)
    requires i < |s|
    ensures Offered(SwapRemove(s, i), v) == Offered(s, v) - (if s[i].value == v then 1 else 0)
  {
    var last := s[|s| - 1];
    OfferedUpdate(s, i, last, v);
    OfferedSnoc(s[i := last], v);
  }

  ghost predicate Covers(s: seq<SlimLeaf>, ds: seq<U64>)
  {
    forall v: nat :: Wanted(ds, v) <= Offered(s, v)
  }

  /** Exact denominations are found exactly when the candidates offer each of them often enough. */
  lemma {:induction false} DenominationsIff(s: seq<SlimLeaf>, ds: seq<U64>)
    ensures Denominations(s, ds).Ok? <==> Covers(s, ds)
    decreases ds
  {
    if ds != [] {
      var i := Position(s, ds[0]);
      OfferedIff(s, ds[0]);
      if i < |s| {
        DenominationsIff(SwapRemove(s, i), ds[1..]);
        forall v: nat ensures Wanted(ds, v) <= Offered(s, v) <==> Wanted(ds[1..], v) <= Offered(SwapRemove(s, i), v) {
          OfferedSwapRemove(s, i, v);
        }
      } else {
        assert Wanted(ds, ds[0]) > 0;
      }
    }
  }

  lemma {:induction false} SlimOffers(pool: seq<SlimLeaf>, bound: nat, over: Option<Id>, v: nat)
    requires v <= bound
    ensures Offered(SlimOf(pool, bound, over), v) == Offered(pool, v)
    decreases pool
  {
    if pool != [] {
      SlimOffers(pool[1..], bound, over, v);
    }
  }

  lemma {:induction false} DenominationFits(ds: seq<U64>, v: nat)
    requires Wanted(ds, v) > 0
    ensures v <= SeqTotal(ds)
    decreases ds
  {
    if v != ds[0] {
      DenominationFits(ds[1..], v);
    }
  }

  /** The selection has these values, in this order. */
  predicate HasValues(s: seq<SlimLeaf>, ds: seq<U64>)
  {
    |s| == |ds| && forall i :: 0 <= i < |ds| ==> s[i].value == ds[i]
  }

  /** On the slim rows exact denominations are found exactly when they are on the whole pool, and
      then both find the values asked for. */
  lemma SlimDenominationsAlike(pool: seq<SlimLeaf>, over: Option<Id>, ds: seq<U64>)
    requires forall l :: l in pool ==> l.value <= I64_MAX
    ensures var onSlim := Denominations(SlimOf(pool, SlimBound(Some(ExactDenominations(ds))), over), ds);
      var onPool := Denominations(pool, ds);
      && (onSlim.Ok? <==> onPool.Ok?)
      && (onSlim.Ok? ==> HasValues(onSlim.value, ds))
      && (onPool.Ok? ==> HasValues(onPool.value, ds))
  {
    var bound := SlimBound(Some(ExactDenominations(ds)));
    var slim := SlimOf(pool, bound, over);
    SlimTotal(pool, bound, over);
    DenominationsIff(slim, ds);
    DenominationsIff(pool, ds);
    if bound != I64_MAX {
      forall v: nat | Wanted(ds, v) > 0 ensures Offered(slim, v) == Offered(pool, v) {
        DenominationFits(ds, v);
        SlimOffers(pool, bound, over, v);
      }
    }
    if Denominations(slim, ds).Ok? {
      DenominationPicks(slim, ds);
      DenominationPicks(pool, ds);
    }
  }

  // ----- the decision ------------------------------------------------------------------------------

  lemma {:induction false} TotalFitsTarget(target: Option<TargetAmounts>)
    ensures TotalSats(target) <= SlimMaxTarget(target)
  {}

  /** The same decision, except that a minimum selection, and one of exact denominations, may take
      other leaves. */
  predicate SameDecision(target: Option<TargetAmounts>, a: Decision, b: Decision)
  {
    a == b
    || (a.Reserve? && b.Reserve? && a.minimum == b.minimum
        && (a.minimum || (target.Some? && target.value.ExactDenominations?)))
  }

  /** The decision taken on the slim rows is the one the whole pool calls for. */
  lemma SlimDecidesAlike(pool: seq<SlimLeaf>, over: Option<Id>, available: int, pending: int,
                         target: Option<TargetAmounts>, exactOnly: bool)
    requires Distinct(IdsOf(pool)) && PicksSmallestOver(pool, SlimBound(target), over)
    requires forall l :: l in pool ==> l.value <= I64_MAX
    ensures SameDecision(target, Decide(available, pending, SlimOf(pool, SlimBound(target), over), target, exactOnly),
                         Decide(available, pending, pool, target, exactOnly))
  {
    var bound := SlimBound(target);
    var slim := SlimOf(pool, bound, over);
    TotalFitsTarget(target);
    SlimTotal(pool, bound, over);
    if bound != I64_MAX {
      SlimReachesIff(pool, bound, over, TotalSats(target));
    }
    if target.Some? && target.value.ExactDenominations? {
      SlimDenominationsAlike(pool, over, target.value.denominations);
      OneErrorOnly(slim, target.value.denominations);
      OneErrorOnly(pool, target.value.denominations);
    } else {
      SlimSelectsAlike(pool, over, target);
    }
  }

  lemma {:induction false} OneErrorOnly(s: seq<SlimLeaf>, ds: seq<U64>)
    ensures Denominations(s, ds).Err? ==> Denominations(s, ds).error == UnselectableAmount
    decreases ds
  {
    if ds != [] && Position(s, ds[0]) < |s| {
      OneErrorOnly(SwapRemove(s, Position(s, ds[0])), ds[1..]);
    }
  }

  ghost predicate ValuesFit(t: Tables, u: User)
  {
    forall k :: k in t.leaves && k.user == u ==> 0 <= t.leaves[k].value <= I64_MAX
  }

  /** Rows that list a set of leaves total its value column. */
  lemma {:induction false} ListsTotal(t: Tables, u: User, keys: set<Key>, rows: seq<SlimLeaf>)
    requires Lists(t, u, keys, rows)
    requires forall k :: k in keys ==> k.user == u && k in t.leaves && t.leaves[k].value >= 0
    ensures Total(rows) == Sum(keys, ValueColumn(t.leaves))
    decreases rows
  {
    if rows == [] {
      assert keys == {};
    } else {
      var k, rest := Key(u, rows[0].id), rows[1..];
      assert rows[0] in rows;
      assert IdsOf(rest) == IdsOf(rows)[1..];
      forall l | l in rest ensures l in rows && Key(u, l.id) in keys - {k} {
        var i :| 0 <= i < |rest| && rest[i] == l;
        assert IdsOf(rows)[i + 1] == l.id && IdsOf(rows)[0] == rows[0].id;
      }
      forall j | j in keys - {k} ensures j.id in SlimIds(rest) {
        var l :| l in rows && l.id == j.id;
        assert l == rows[0] || l in rest;
        assert j == Key(u, j.id);
      }
      ListsTotal(t, u, keys - {k}, rest);
      SumRemove(keys, ValueColumn(t.leaves), k);
    }
  }

  /** The slim rows of the table reach a target up to the bound exactly when the pool does. */
  lemma SlimRowsReachIff(t: Tables, u: User, target: Option<TargetAmounts>, rows: seq<SlimLeaf>, needed: nat)
    requires ValuesFit(t, u) && AnswersSlim(t, u, SlimBound(target), rows) && needed <= SlimMaxTarget(target)
    ensures Total(rows) >= needed <==> EligibleTotal(t, u) >= needed
  {
    var bound := SlimBound(target);
    var over: Option<Id> :| SmallestOver(t, u, bound, over)
      && Lists(t, u, (set k | k in t.leaves && IsSlim(t, u, bound, over, k)), rows);
    var slim := set k | k in t.leaves && IsSlim(t, u, bound, over, k);
    var pool, f := EligibleKeys(t, u), ValueColumn(t.leaves);
    ListsTotal(t, u, slim, rows);
    SumSplit(pool, slim, f);
    SumNonNegative(pool - slim, f);
    if slim == pool {
      assert pool - slim == {};
    } else {
      var k :| k in pool && k !in slim;
      assert t.leaves[k].value > bound;
      assert bound == SlimMaxTarget(target) && over.Some?;
      var top := Key(u, over.value);
      assert top in slim;
      SumRemove(slim, f, top);
      SumNonNegative(slim - {top}, f);
    }
  }

  /** Any answer to the slim query is the slim part of some listing of the whole pool, so that the
      lemmas on pools apply to it. */
  lemma SlimRowsOfPool(t: Tables, u: User, bound: nat, over: Option<Id>, rows: seq<SlimLeaf>, rest: seq<SlimLeaf>)
    requires ValuesFit(t, u) && SmallestOver(t, u, bound, over)
    requires Lists(t, u, (set k | k in t.leaves && IsSlim(t, u, bound, over, k)), rows)
    requires Lists(t, u, (set k | k in EligibleKeys(t, u) && !IsSlim(t, u, bound, over, k)), rest)
    ensures SlimOf(rows + rest, bound, over) == rows
    ensures PicksSmallestOver(rows + rest, bound, over)
    ensures Lists(t, u, EligibleKeys(t, u), rows + rest)
  {
    var slim := set k | k in t.leaves && IsSlim(t, u, bound, over, k);
    var big := set k | k in EligibleKeys(t, u) && !IsSlim(t, u, bound, over, k);
    assert slim + big == EligibleKeys(t, u);
    ListsConcat(t, u, slim, big, rows, rest);
    SlimOfSplit(rows, rest, bound, over);
    if over.Some? {
      var l :| l in rows && l.id == over.value;
      assert IsSmallestAbove(rows + rest, bound, over.value, l);
    }
  }

  lemma ListsOneMore(t: Tables, u: User, keys: set<Key>, rows: seq<SlimLeaf>, k: Key, row: SlimLeaf)
    requires Lists(t, u, keys, rows) && k !in keys && k in t.leaves && k.user == u
    requires row == SlimLeaf(k.id, AsU64OrZero(t.leaves[k].value))
    ensures Lists(t, u, keys + {k}, rows + [row])
  {
    var more := rows + [row];
    assert k == Key(u, k.id);
    forall i, j | 0 <= i < j < |more| ensures IdsOf(more)[i] != IdsOf(more)[j] {
      if j == |rows| {
        assert rows[i] in rows;
        assert Key(u, rows[i].id) in keys;
      } else {
        assert IdsOf(rows)[i] != IdsOf(rows)[j];
      }
    }
    forall j | j in keys + {k} ensures j.id in SlimIds(more) {
      if j in keys {
        var l :| l in rows && l.id == j.id;
        assert l in more;
      } else {
        assert row in more;
      }
    }
  }

  lemma {:induction false} SomeListing(t: Tables, u: User, keys: set<Key>) returns (rows: seq<SlimLeaf>)
    requires forall k :: k in keys ==> k in t.leaves && k.user == u
    ensures Lists(t, u, keys, rows)
    decreases keys
  {
    rows := [];
    if keys != {} {
      var k :| k in keys;
      var row := SlimLeaf(k.id, AsU64OrZero(t.leaves[k].value));
      var others := SomeListing(t, u, keys - {k});
      ListsOneMore(t, u, keys - {k}, others, k, row);
      assert keys - {k} + {k} == keys;
      rows := others + [row];
    }
  }

  predicate SelectsForThePool(rows: seq<SlimLeaf>, pool: seq<SlimLeaf>, target: Option<TargetAmounts>)
  {
    if target.Some? && target.value.ExactDenominations? then
      var ds := target.value.denominations;
      var onRows, onPool := Denominations(rows, ds), Denominations(pool, ds);
      && (onRows.Ok? <==> onPool.Ok?)
      && (onRows.Ok? ==> HasValues(onRows.value, ds))
      && (onPool.Ok? ==> HasValues(onPool.value, ds))
    else
      SelectByTargets(rows, target) == SelectByTargets(pool, target)
  }

  lemma PoolSelects(pool: seq<SlimLeaf>, over: Option<Id>, target: Option<TargetAmounts>)
    requires Distinct(IdsOf(pool)) && PicksSmallestOver(pool, SlimBound(target), over)
    requires forall l :: l in pool ==> l.value <= I64_MAX
    ensures SelectsForThePool(SlimOf(pool, SlimBound(target), over), pool, target)
  {
    if target.Some? && target.value.ExactDenominations? {
      SlimDenominationsAlike(pool, over, target.value.denominations);
    } else {
      SlimSelectsAlike(pool, over, target);
    }
  }

  /** A reservation attempt reads only the slim rows of the table, and yet there is a listing of
      the whole pool on which it would have decided the same: an amount-and-fee target, or none,
      selects the very same leaves, exact denominations are found on both or on neither, and no
      choice of pool leaves within the target has a leaf the rows lack. */
  lemma SlimRowsDecideForThePool(t: Tables, op: Op) returns (pool: seq<SlimLeaf>)
    requires op.TryReserve? && Enabled(t, op) && ValuesFit(t, op.user)
    ensures Lists(t, op.user, EligibleKeys(t, op.user), pool)
    ensures var available, pending := EligibleTotal(t, op.user), PendingTotal(t, op.user);
      SameDecision(op.target, DecisionOf(t, op), Decide(available, pending, pool, op.target, op.exactOnly))
    ensures SelectsForThePool(op.rows, pool, op.target)
    ensures forall choice :: multiset(choice) <= multiset(pool) && Total(choice) <= SlimMaxTarget(op.target) ==>
      forall l :: l in choice ==> l in op.rows
  {
    var u, bound := op.user, SlimBound(op.target);
    var over: Option<Id> :| SmallestOver(t, u, bound, over)
      && Lists(t, u, (set k | k in t.leaves && IsSlim(t, u, bound, over, k)), op.rows);
    var rest := SomeListing(t, u, set k | k in EligibleKeys(t, u) && !IsSlim(t, u, bound, over, k));
    pool := op.rows + rest;
    SlimRowsOfPool(t, u, bound, over, op.rows, rest);
    SlimDecidesAlike(pool, over, EligibleTotal(t, u), PendingTotal(t, u), op.target, op.exactOnly);
    PoolSelects(pool, over, op.target);
    forall choice | multiset(choice) <= multiset(pool) && Total(choice) <= SlimMaxTarget(op.target)
      ensures forall l :: l in choice ==> l in op.rows
    {
      SlimHoldsEveryChoice(pool, op.target, over, choice);
    }
  }

  lemma ListsConcat(t: Tables, u: User, a: set<Key>, b: set<Key>, rows: seq<SlimLeaf>, rest: seq<SlimLeaf>)
    requires Lists(t, u, a, rows) && Lists(t, u, b, rest) && a !! b
    ensures Lists(t, u, a + b, rows + rest)
  {
    var all := rows + rest;
    forall i, j | 0 <= i < j < |all| ensures all[i].id != all[j].id {
      if i < |rows| <= j {
        assert rows[i] in rows && rest[j - |rows|] in rest;
      } else if j < |rows| {
        assert IdsOf(rows)[i] != IdsOf(rows)[j];
      } else {
        assert IdsOf(rest)[i - |rows|] != IdsOf(rest)[j - |rows|];
      }
    }
    forall k | k in a + b ensures k.id in SlimIds(all) {
      var l :| l in (if k in a then rows else rest) && l.id == k.id;
      assert l in all;
    }
  }

  lemma {:induction false} SlimOfSplit(rows: seq<SlimLeaf>, rest: seq<SlimLeaf>, bound: nat, over: Option<Id>)
    requires forall l :: l in rows ==> l.value <= bound || over == Some(l.id)
    requires forall l :: l in rest ==> l.value > bound && over != Some(l.id)
    ensures SlimOf(rows + rest, bound, over) == rows
    decreases |rows| + |rest|
  {
    if rows != [] {
      assert (rows + rest)[1..] == rows[1..] + rest;
      SlimOfSplit(rows[1..], rest, bound, over);
    } else if rest != [] {
      assert rows + rest == rest && [] + rest[1..] == rest[1..];
      SlimOfSplit([], rest[1..], bound, over);
    }
  }

  lemma DecisionMeans(available: int, pending: int, rows: seq<SlimLeaf>, target: Option<TargetAmounts>, exactOnly: bool)
    requires FitsI64(available) && FitsI64(pending) && 0 <= available
    requires Total(rows) >= TotalSats(target) <==> available >= TotalSats(target)
    ensures var d, extra := Decide(available, pending, rows, target, exactOnly), AsU64OrZero(pending);
      var needed, failed := TotalSats(target), SelectByTargets(rows, target).Err?;
      var short := exactOnly || needed == 0 || available < needed;
      && available + extra < TWO64
      && (d.WaitForPending? <==> (failed && short && needed <= available + extra))
      && (d.NotEnough? <==> (failed && short && available + extra < needed))
      && (d.Reserve? && d.minimum <==> (failed && !short))
      && (d.WaitForPending? ==> d == WaitForPending(needed, available, extra))
  {}

  /** What the outcome of a reservation attempt means for the true sums of the tables. */
  lemma ReserveOutcomeMeans(t: Tables, op: Op)
    requires op.TryReserve? && Enabled(t, op) && ValuesFit(t, op.user)
    requires FitsI64(EligibleTotal(t, op.user)) && FitsI64(PendingTotal(t, op.user))
    ensures var available, pending := EligibleTotal(t, op.user), AsU64OrZero(PendingTotal(t, op.user));
      var needed, failed := TotalSats(op.target), SelectByTargets(op.rows, op.target).Err?;
      var short := op.exactOnly || needed == 0 || available < needed;
      && 0 <= available && available + pending < TWO64
      && (DecisionOf(t, op).WaitForPending? <==> (failed && short && needed <= available + pending))
      && (DecisionOf(t, op).NotEnough? <==> (failed && short && available + pending < needed))
      && (DecisionOf(t, op).Reserve? && DecisionOf(t, op).minimum <==> (failed && !short))
      && (DecisionOf(t, op).WaitForPending? ==> DecisionOf(t, op) == WaitForPending(needed, available, pending))
  {
    TotalFitsTarget(op.target);
    SlimRowsReachIff(t, op.user, op.target, op.rows, TotalSats(op.target));
    SumNonNegative(EligibleKeys(t, op.user), ValueColumn(t.leaves));
    DecisionMeans(EligibleTotal(t, op.user), PendingTotal(t, op.user), op.rows, op.target, op.exactOnly);
  }

  /** The attempt waits for nothing exactly when the target comes to zero and cannot be selected
      exactly: the minimum search rejects a zero target, so even with everything available and
      nothing pending it is told to wait. An amount of zero can never be selected exactly. */
  lemma ZeroTargetWaits(available: int, pending: int, rows: seq<SlimLeaf>, target: Option<TargetAmounts>,
                        exactOnly: bool)
    requires FitsI64(available) && FitsI64(pending)
    ensures Decide(available, pending, rows, target, exactOnly)
        == WaitForPending(0, AsU64OrZero(available), AsU64OrZero(pending))
      <==> TotalSats(target) == 0 && SelectByTargets(rows, target).Err?
    ensures target.Some? && target.value.AmountAndFee? && target.value.amount == 0 ==>
      SelectByTargets(rows, target).Err?
  {}
}

/** When the exact search over several leaves succeeds: whenever some choice of candidates worth
    powers of two totals the target, the greedy passes find one. */
module ExactSearch {
  import opened Base
  import opened TreeTables
  import opened LeafSelection
  import opened SelectionFacts
  import opened TreeOps
  import opened SlimQuery

  /** Every value is a power of two. */
  ghost predicate AllPowersOfTwo(s: seq<SlimLeaf>)
  {
    forall l :: l in s ==> IsPowerOfTwo(l.value)
  }

  ghost predicate Descending(s: seq<SlimLeaf>)
  {
    forall i, j :: 0 <= i < j < |s| ==> s[i].value >= s[j].value
  }

  /** A choice of candidates worth powers of two that totals the target. */
  ghost predicate Makes(s: seq<SlimLeaf>, target: nat, choice: seq<SlimLeaf>)
  {
    multiset(choice) <= multiset(s) && AllPowersOfTwo(choice) && Total(choice) == target
  }

  // ----- powers of two ------------------------------------------------------------------------------

  function Power(k: nat): nat { if k == 0 then 1 else 2 * Power(k - 1) }

  lemma {:induction false} PowerIsOne(k: nat)
    ensures Power(k) >= 1 && IsPowerOfTwo(Power(k))
    decreases k
  {
    if k > 0 {
      PowerIsOne(k - 1);
      assert Power(k) / 2 == Power(k - 1);
    }
  }

  /** The test finds exactly the powers of two. */
  lemma {:induction false} PowersAre(v: nat)
    ensures IsPowerOfTwo(v) <==> exists k: nat :: Power(k) == v
    decreases v
  {
    if v > 1 && v % 2 == 0 && IsPowerOfTwo(v / 2) {
      PowersAre(v / 2);
      var k: nat :| Power(k) == v / 2;
      assert Power(k + 1) == v;
    } else if v == 1 {
      assert Power(0) == v;
    }
    if k: nat :| Power(k) == v {
      PowerIsOne(k);
    }
  }

  /** A smaller power of two divides a larger one. */
  lemma {:induction false} PowerDivides(p: nat, q: nat) returns (m: nat)
    requires IsPowerOfTwo(p) && IsPowerOfTwo(q) && p <= q
    ensures q == m * p
    decreases q
  {
    if p == q {
      m := 1;
    } else if p == 1 {
      m := q;
    } else {
      m := PowerDivides(p / 2, q / 2);
      Doubled(p, q, m);
    }
  }

  lemma Doubled(p: nat, q: nat, m: nat)
    requires p % 2 == 0 && q % 2 == 0 && q / 2 == m * (p / 2)
    ensures q == m * p
  {
    assert q == 2 * (m * (p / 2)) == m * (2 * (p / 2));
  }

  lemma Regroup(r: nat, a: nat, v: nat, b: nat, w: nat)
    requires a > 0 && r == a * v && v == b * w
    ensures r - v == (a - 1) * v == ((a - 1) * b) * w
  {
    assert (a - 1) * (b * w) == ((a - 1) * b) * w;
  }

  lemma Positive(r: nat, a: nat, v: nat)
    requires r > 0 && r == a * v
    ensures a > 0 && r >= v
  {
    if a == 0 {
      assert false;
    }
    assert a * v == (a - 1) * v + v;
  }

  // ----- what is already there sorted ---------------------------------------------------------------

  lemma {:induction false} InsertDescends(x: SlimLeaf, s: seq<SlimLeaf>)
    requires Descending(s)
    ensures Descending(InsertDescending(x, s))
    decreases s
  {
    if s != [] && s[0].value > x.value {
      var rest := InsertDescending(x, s[1..]);
      InsertDescends(x, s[1..]);
      InsertPermutes(x, s[1..]);
      forall l | l in rest ensures l.value <= s[0].value {
        assert l in multiset(rest) && (l == x || l in s[1..]);
      }
      FrontDescends(s[0], rest);
    } else if s != [] {
      forall l | l in s ensures l.value <= x.value {
      }
      FrontDescends(x, s);
    }
  }

  lemma FrontDescends(x: SlimLeaf, s: seq<SlimLeaf>)
    requires Descending(s) && forall l :: l in s ==> l.value <= x.value
    ensures Descending(Prepend(x, s))
  {
    var p := Prepend(x, s);
    forall i, j | 0 <= i < j < |p| ensures p[i].value >= p[j].value {
      assert p[j] == p[1..][j - 1] && p[j] in s;
      if i > 0 {
        assert p[i] == p[1..][i - 1];
      }
    }
  }

  lemma {:induction false} SortDescends(s: seq<SlimLeaf>)
    ensures Descending(SortDescending(s))
    decreases s
  {
    if s != [] {
      SortDescends(s[1..]);
      InsertDescends(s[0], SortDescending(s[1..]));
    }
  }

  // ----- the greedy pass ----------------------------------------------------------------------------

  /** Descending powers of two hit any multiple of the first that they reach. */
  lemma {:induction false} PrefixHits(s: seq<SlimLeaf>, r: nat, a: nat) returns (n: nat)
    requires s != [] && Descending(s) && AllPowersOfTwo(s)
    requires 0 < r <= Total(s) && r == a * s[0].value
    ensures n <= |s| && Total(s[..n]) == r
    decreases s
  {
    var v := s[0].value;
    Positive(r, a, v);
    if r == v {
      n := 1;
      assert s[..1] == [s[0]] && [s[0]][1..] == [];
    } else {
      assert s[1..] != [] && s[1] in s && s[0] in s;
      assert forall l :: l in s[1..] ==> l in s;
      var b := PowerDivides(s[1].value, v);
      Regroup(r, a, v, b, s[1].value);
      var rest := PrefixHits(s[1..], r - v, (a - 1) * b);
      n := rest + 1;
      assert s[..n][1..] == s[1..][..rest];
    }
  }

  lemma TotalWithout(c: seq<SlimLeaf>, i: nat)
    requires i < |c|
    ensures Total(c[..i] + c[i + 1..]) == Total(c) - c[i].value
    ensures multiset(c[..i] + c[i + 1..]) == multiset(c) - multiset{c[i]}
  {
    Around(c, i);
    RestOf(c, c[..i], c[i], c[i + 1..]);
  }

  lemma Around(c: seq<SlimLeaf>, i: nat)
    requires i < |c|
    ensures c == c[..i] + Prepend(c[i], c[i + 1..])
  {}

  lemma RestOf(c: seq<SlimLeaf>, front: seq<SlimLeaf>, x: SlimLeaf, back: seq<SlimLeaf>)
    requires c == front + Prepend(x, back)
    ensures multiset(front + back) == multiset(c) - multiset{x}
    ensures Total(front + back) == Total(c) - x.value
  {
    TotalConcat(front, Prepend(x, back));
    TotalConcat(front, back);
    assert Prepend(x, back) == [x] + back;
    assert multiset(c) == multiset(front) + (multiset{x} + multiset(back));
    assert multiset(front + back) == multiset(front) + multiset(back);
  }

  lemma {:induction false} SortTotals(s: seq<SlimLeaf>)
    ensures Total(SortDescending(s)) == Total(s)
    decreases s
  {
    if s != [] {
      SortTotals(s[1..]);
      InsertTotals(s[0], SortDescending(s[1..]));
    }
  }

  lemma {:induction false} InsertTotals(x: SlimLeaf, s: seq<SlimLeaf>)
    ensures Total(InsertDescending(x, s)) == x.value + Total(s)
    decreases s
  {
    if s != [] && s[0].value > x.value {
      InsertTotals(x, s[1..]);
    }
  }

  /** A choice that goes without the largest candidate can give up part of itself for it. */
  lemma ExchangeForLargest(c: seq<SlimLeaf>, x: nat) returns (rest: seq<SlimLeaf>)
    requires IsPowerOfTwo(x) && AllPowersOfTwo(c) && (forall l :: l in c ==> l.value <= x) && x < Total(c)
    ensures multiset(rest) <= multiset(c) && Total(rest) == Total(c) - x
  {
    var d := SortDescending(c);
    SortDescends(c);
    SortPermutes(c);
    SortTotals(c);
    forall l | l in d ensures l in c {
      assert l in multiset(d);
    }
    assert d[0] in d;
    var a := PowerDivides(d[0].value, x);
    var n := PrefixHits(d, x, a);
    rest := d[n..];
    assert d == d[..n] + d[n..];
    TotalConcat(d[..n], d[n..]);
    assert multiset(d) == multiset(d[..n]) + multiset(d[n..]);
  }

  /** What is left to make once the largest candidate is taken. */
  lemma TakeLargest(s: seq<SlimLeaf>, target: nat, c: seq<SlimLeaf>) returns (rest: seq<SlimLeaf>)
    requires s != [] && Descending(s) && AllPowersOfTwo(s) && Makes(s, target, c) && s[0].value < target
    ensures Makes(s[1..], target - s[0].value, rest)
  {
    assert s == [s[0]] + s[1..] && s[0] in s;
    Drawn(s, c);
    if s[0] in c {
      var i :| 0 <= i < |c| && c[i] == s[0];
      TotalWithout(c, i);
      rest := c[..i] + c[i + 1..];
    } else {
      LeavesOutFirst(s, c);
      rest := ExchangeForLargest(c, s[0].value);
    }
    Drawn(c, rest);
  }

  lemma Drawn(s: seq<SlimLeaf>, c: seq<SlimLeaf>)
    requires multiset(c) <= multiset(s)
    ensures forall l :: l in c ==> l in s
  {
    forall l | l in c ensures l in s {
      assert l in multiset(c) && l in multiset(s);
    }
  }

  lemma LeavesOutFirst(s: seq<SlimLeaf>, c: seq<SlimLeaf>)
    requires s != [] && multiset(c) <= multiset(s) && s[0] !in c
    ensures multiset(c) <= multiset(s[1..])
  {
    assert s == [s[0]] + s[1..];
    forall l ensures multiset(c)[l] <= multiset(s[1..])[l] {
      if l == s[0] {
        assert l !in multiset(c);
      }
    }
  }

  lemma {:induction false} GreedyFinds(s: seq<SlimLeaf>, target: nat, c: seq<SlimLeaf>)
    requires target > 0 && Descending(s) && AllPowersOfTwo(s) && Makes(s, target, c)
    ensures Greedy(s, target).Some?
    decreases s
  {
    Drawn(s, c);
    assert c[0] in c && c[0] in s;
    assert forall l :: l in s[1..] ==> l in s;
    if s[0].value > target {
      if s[0] in c {
        SmallChoice(c, s[0]);
      }
      LeavesOutFirst(s, c);
      GreedyFinds(s[1..], target, c);
    } else if s[0].value < target {
      var rest := TakeLargest(s, target, c);
      GreedyFinds(s[1..], target - s[0].value, rest);
    }
  }

  // ----- the search ---------------------------------------------------------------------------------

  lemma {:induction false} PowersKept(s: seq<SlimLeaf>, l: SlimLeaf)
    ensures multiset(PowersOfTwo(s))[l] == if IsPowerOfTwo(l.value) then multiset(s)[l] else 0
    decreases s
  {
    if s != [] {
      PowersKept(s[1..], l);
      assert s == [s[0]] + s[1..];
      if IsPowerOfTwo(s[0].value) {
        assert PowersOfTwo(s) == [s[0]] + PowersOfTwo(s[1..]);
      }
    }
  }

  lemma TotalOfPart(s: seq<SlimLeaf>, c: seq<SlimLeaf>)
    requires multiset(c) <= multiset(s)
    ensures Total(c) <= Total(s)
    decreases c
  {
    if c != [] {
      Drawn(s, c);
      assert c[0] in c;
      var i :| 0 <= i < |s| && s[i] == c[0];
      TotalWithout(s, i);
      assert c == [c[0]] + c[1..];
      TotalOfPart(s[..i] + s[i + 1..], c[1..]);
    }
  }

  lemma SecondPassFinds(s: seq<SlimLeaf>, target: nat, choice: seq<SlimLeaf>)
    requires target > 0 && Makes(s, target, choice)
    ensures Greedy(SortDescending(PowersOfTwo(s)), target).Some?
  {
    var p := PowersOfTwo(s);
    var d := SortDescending(p);
    SortDescends(p);
    SortPermutes(p);
    forall l ensures multiset(choice)[l] <= multiset(d)[l] {
      PowersKept(s, l);
      assert l in choice || multiset(choice)[l] == 0;
    }
    forall l | l in d ensures IsPowerOfTwo(l.value) {
      PowersKept(s, l);
      assert l in multiset(d);
    }
    GreedyFinds(d, target, choice);
  }

  /** Whenever some choice of candidates worth powers of two totals an amount, the exact search
      selects candidates for it, whatever else is among them. */
  lemma ExactFinds(s: seq<SlimLeaf>, target: U64, choice: seq<SlimLeaf>)
    requires target > 0 && Makes(s, target, choice)
    ensures SelectByTargets(s, Some(AmountAndFee(target, None))).Ok?
  {
    TotalOfPart(s, choice);
    MultipleIsTwoPasses(s, target);
    SecondPassFinds(s, target, choice);
    assert s != [] by {
      Drawn(s, choice);
    }
  }

  /** On a pool of powers of two this is exact. */
  lemma ExactIff(s: seq<SlimLeaf>, target: U64)
    requires AllPowersOfTwo(s)
    ensures SelectByTargets(s, Some(AmountAndFee(target, None))).Ok? <==>
      target > 0 && exists choice :: Makes(s, target, choice)
  {
    if ExactAmount(s, target).Ok? {
      var choice := ExactAmount(s, target).value;
      ExactPicks(s, target);
      Drawn(s, choice);
      assert Makes(s, target, choice);
    }
    if target > 0 && exists choice :: Makes(s, target, choice) {
      var choice :| Makes(s, target, choice);
      ExactFinds(s, target, choice);
    }
  }

  lemma {:induction false} SingleFound(s: seq<SlimLeaf>, target: nat, l: SlimLeaf)
    requires l in s && l.value == target
    ensures FindSingle(s, target).Some?
    decreases s
  {
    if s[0].value != target {
      SingleFound(s[1..], target, l);
    }
  }

  /** A leaf worth the amount is selected alone, and what an exact search is refused for: nothing
      asked, too little there, or no way found. */
  lemma ExactSingleAndErrors(s: seq<SlimLeaf>, target: nat)
    ensures target > 0 && (exists l :: l in s && l.value == target) && target <= Total(s) ==>
      ExactAmount(s, target).Ok? && |ExactAmount(s, target).value| == 1
    ensures ExactAmount(s, target) == Err(InvalidAmount) <==> target == 0
    ensures ExactAmount(s, target) == Err(InsufficientFunds) <==> target > Total(s)
  {
    if l :| l in s && l.value == target {
      SingleFound(s, target, l);
    }
  }

  // ----- the table ----------------------------------------------------------------------------------

  /** Leaves of the pool, listed once each, are a choice from any listing of the pool. */
  lemma ListedPart(t: Tables, u: User, part: set<Key>, all: set<Key>, choice: seq<SlimLeaf>, pool: seq<SlimLeaf>)
    requires Lists(t, u, part, choice) && Lists(t, u, all, pool) && part <= all
    ensures multiset(choice) <= multiset(pool)
  {
    forall l | l in choice ensures multiset(choice)[l] <= multiset(pool)[l] {
      assert Key(u, l.id) in all;
      var m :| m in pool && m.id == l.id;
      assert m == l;
      DistinctMeansOnce(choice, l);
      DistinctMeansOnce(pool, l);
    }
    forall l ensures multiset(choice)[l] <= multiset(pool)[l] {
      if l !in choice {
        assert multiset(choice)[l] == 0;
      }
    }
  }

  /** So an attempt to reserve an amount that some eligible leaves worth powers of two total is an
      exact reservation: it neither over-reserves nor waits. */
  lemma ReservesExactly(t: Tables, op: Op, amount: U64, part: set<Key>, choice: seq<SlimLeaf>)
    requires op.TryReserve? && Enabled(t, op) && ValuesFit(t, op.user)
    requires op.target == Some(AmountAndFee(amount, None)) && amount > 0
    requires part <= EligibleKeys(t, op.user) && Lists(t, op.user, part, choice)
    requires AllPowersOfTwo(choice) && Total(choice) == amount
    requires FitsI64(EligibleTotal(t, op.user)) && FitsI64(PendingTotal(t, op.user))
    ensures DecisionOf(t, op).Reserve? && !DecisionOf(t, op).minimum
  {
    var pool := SlimRowsDecideForThePool(t, op);
    ListedPart(t, op.user, part, EligibleKeys(t, op.user), choice, pool);
    ExactFinds(pool, amount, choice);
    var picked := SelectByTargets(op.rows, op.target).value;
    SelectionPicks(op.rows, op.target);
    assert picked.All() != [];
  }
}

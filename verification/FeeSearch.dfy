/** When the exact search finds leaves for an amount and, apart from them, for a fee: on a pool of
    powers of two, whenever the pool holds a choice for each with no leaf in both. */
module FeeSearch {
  import opened Base
  import opened TreeTables
  import opened LeafSelection
  import opened SelectionFacts
  import opened TreeOps
  import opened SlimQuery
  import opened ExactSearch

  /** A choice for the amount and one for the fee, with no candidate in both. */
  ghost predicate MakesBoth(s: seq<SlimLeaf>, amount: nat, fee: nat, forAmount: seq<SlimLeaf>, forFee: seq<SlimLeaf>)
  {
    multiset(forAmount) + multiset(forFee) <= multiset(s) && Total(forAmount) == amount && Total(forFee) == fee
  }

  // ----- one leaf taken --------------------------------------------------------------------------------

  /** A choice of powers of two none of which is larger splits off exactly a power of two it reaches. */
  lemma SplitOff(c: seq<SlimLeaf>, x: nat) returns (part: seq<SlimLeaf>, rest: seq<SlimLeaf>)
    requires IsPowerOfTwo(x) && AllPowersOfTwo(c) && (forall l :: l in c ==> l.value <= x) && x <= Total(c)
    ensures multiset(part) + multiset(rest) == multiset(c) && Total(part) == x && Total(rest) == Total(c) - x
  {
    var d := SortDescending(c);
    SortDescends(c);
    SortPermutes(c);
    SortTotals(c);
    forall l | l in d ensures l in c {
      assert l in multiset(d);
    }
    assert d[0] in d;
    var a := PowerDivides(d[0].value, x);
    var n := PrefixHits(d, x, a);
    part, rest := d[..n], d[n..];
    assert d == part + rest;
    TotalConcat(part, rest);
    assert multiset(d) == multiset(part) + multiset(rest);
  }

  lemma RemoveOne(c: seq<SlimLeaf>, l: SlimLeaf) returns (rest: seq<SlimLeaf>)
    requires l in c
    ensures multiset(rest) == multiset(c) - multiset{l} && Total(rest) == Total(c) - l.value
  {
    var i :| 0 <= i < |c| && c[i] == l;
    TotalWithout(c, i);
    rest := c[..i] + c[i + 1..];
  }

  /** Once a candidate as large as any chosen for the amount is taken for it, the others still hold a
      choice for the rest of the amount and one for the fee: whoever had chosen it is given part of
      the amount's choice instead. */
  lemma TakeOne(s: multiset<SlimLeaf>, l: SlimLeaf, forAmount: seq<SlimLeaf>, forFee: seq<SlimLeaf>)
    returns (amountLeft: seq<SlimLeaf>, feeLeft: seq<SlimLeaf>)
    requires l in s && multiset(forAmount) + multiset(forFee) <= s && AllPowersOfTwo(forAmount) && IsPowerOfTwo(l.value)
    requires l.value <= Total(forAmount) && forall x :: x in forAmount ==> x.value <= l.value
    ensures multiset(amountLeft) + multiset(feeLeft) <= s - multiset{l}
    ensures Total(amountLeft) == Total(forAmount) - l.value && Total(feeLeft) == Total(forFee)
  {
    if l in forAmount {
      amountLeft := RemoveOne(forAmount, l);
      feeLeft := forFee;
    } else {
      var part;
      part, amountLeft := SplitOff(forAmount, l.value);
      if l in forFee {
        var others := RemoveOne(forFee, l);
        feeLeft := others + part;
        TotalConcat(others, part);
        GivenInstead(s, l, forAmount, forFee, part, amountLeft, others);
      } else {
        feeLeft := forFee;
        NotChosen(s, l, forAmount, forFee, amountLeft);
      }
    }
  }

  lemma GivenInstead(s: multiset<SlimLeaf>, l: SlimLeaf, forAmount: seq<SlimLeaf>, forFee: seq<SlimLeaf>,
                     part: seq<SlimLeaf>, rest: seq<SlimLeaf>, others: seq<SlimLeaf>)
    requires multiset(forAmount) + multiset(forFee) <= s && l in forFee
    requires multiset(part) + multiset(rest) == multiset(forAmount)
    requires multiset(others) == multiset(forFee) - multiset{l}
    ensures multiset(rest) + multiset(others + part) <= s - multiset{l}
  {
    assert multiset(others + part) == multiset(others) + multiset(part);
    assert l in multiset(forFee);
  }

  lemma NotChosen(s: multiset<SlimLeaf>, l: SlimLeaf, forAmount: seq<SlimLeaf>, forFee: seq<SlimLeaf>,
                  rest: seq<SlimLeaf>)
    requires l in s && multiset(forAmount) + multiset(forFee) <= s && multiset(rest) <= multiset(forAmount)
    requires l !in forAmount && l !in forFee
    ensures multiset(rest) + multiset(forFee) <= s - multiset{l}
  {
    forall x ensures (multiset(rest) + multiset(forFee))[x] <= (s - multiset{l})[x] {
      if x == l {
        assert l !in multiset(forAmount) && l !in multiset(forFee);
      }
    }
  }

  // ----- the greedy pass leaves a fee ------------------------------------------------------------------

  lemma HeadAndTail(s: seq<SlimLeaf>)
    requires s != []
    ensures multiset(s) == multiset{s[0]} + multiset(s[1..])
    ensures forall l :: l in s[1..] ==> l in s
  {
    assert s == [s[0]] + s[1..];
  }

  lemma {:induction false} GreedyLeavesFee(s: seq<SlimLeaf>, amount: nat, fee: nat, forAmount: seq<SlimLeaf>,
                                           forFee: seq<SlimLeaf>) returns (feeLeft: seq<SlimLeaf>)
    requires amount > 0 && Descending(s) && AllPowersOfTwo(s) && MakesBoth(s, amount, fee, forAmount, forFee)
    ensures Greedy(s, amount).Some? && Total(feeLeft) == fee
    ensures multiset(Greedy(s, amount).value) + multiset(feeLeft) <= multiset(s)
    decreases s
  {
    Drawn(s, forAmount);
    assert forAmount[0] in forAmount && forAmount[0] in s;
    HeadAndTail(s);
    assert s[0] in s;
    if s[0].value > amount {
      feeLeft := PassOver(s, amount, fee, forAmount, forFee);
    } else {
      var amountLeft, others := TakeHead(s, amount, fee, forAmount, forFee);
      if s[0].value == amount {
        feeLeft := others;
        HeadIsAll(s, amount, others);
      } else {
        feeLeft := GreedyLeavesFee(s[1..], amount - s[0].value, fee, amountLeft, others);
        HeadTaken(s, amount, feeLeft);
      }
    }
  }

  lemma TakeHead(s: seq<SlimLeaf>, amount: nat, fee: nat, forAmount: seq<SlimLeaf>, forFee: seq<SlimLeaf>)
    returns (amountLeft: seq<SlimLeaf>, feeLeft: seq<SlimLeaf>)
    requires s != [] && s[0].value <= amount && Descending(s) && AllPowersOfTwo(s)
    requires MakesBoth(s, amount, fee, forAmount, forFee)
    ensures MakesBoth(s[1..], amount - s[0].value, fee, amountLeft, feeLeft)
  {
    Drawn(s, forAmount);
    HeadAndTail(s);
    assert s[0] in s;
    forall x | x in forAmount ensures x.value <= s[0].value {
      var i :| 0 <= i < |s| && s[i] == x;
    }
    amountLeft, feeLeft := TakeOne(multiset(s), s[0], forAmount, forFee);
  }

  lemma HeadIsAll(s: seq<SlimLeaf>, amount: nat, feeLeft: seq<SlimLeaf>)
    requires s != [] && s[0].value == amount && multiset(feeLeft) <= multiset(s[1..])
    ensures Greedy(s, amount).Some? && multiset(Greedy(s, amount).value) + multiset(feeLeft) <= multiset(s)
  {
    HeadAndTail(s);
    assert Greedy(s, amount) == Some([s[0]]) && multiset([s[0]]) == multiset{s[0]};
  }

  lemma HeadTaken(s: seq<SlimLeaf>, amount: nat, feeLeft: seq<SlimLeaf>)
    requires s != [] && s[0].value < amount && Greedy(s[1..], amount - s[0].value).Some?
    requires multiset(Greedy(s[1..], amount - s[0].value).value) + multiset(feeLeft) <= multiset(s[1..])
    ensures Greedy(s, amount).Some? && multiset(Greedy(s, amount).value) + multiset(feeLeft) <= multiset(s)
  {
    var found := Greedy(s[1..], amount - s[0].value).value;
    HeadAndTail(s);
    assert Prepend(s[0], found) == [s[0]] + found;
  }

  /** The head is too large for the amount: only the fee may have chosen it. */
  lemma {:induction false} PassOver(s: seq<SlimLeaf>, amount: nat, fee: nat, forAmount: seq<SlimLeaf>,
                                    forFee: seq<SlimLeaf>) returns (feeLeft: seq<SlimLeaf>)
    requires s != [] && s[0].value > amount > 0 && Descending(s) && AllPowersOfTwo(s)
    requires MakesBoth(s, amount, fee, forAmount, forFee)
    ensures Greedy(s, amount).Some? && Total(feeLeft) == fee
    ensures multiset(Greedy(s, amount).value) + multiset(feeLeft) <= multiset(s)
    decreases s, 0
  {
    var l, rest := s[0], s[1..];
    HeadAndTail(s);
    if l in forAmount {
      SmallChoice(forAmount, l);
    }
    if l in forFee {
      var others := RemoveOne(forFee, l);
      FeeHadHead(s, forAmount, forFee, others);
      var left := GreedyLeavesFee(rest, amount, fee - l.value, forAmount, others);
      feeLeft := Prepend(l, left);
      assert multiset(feeLeft) == multiset{l} + multiset(left);
    } else {
      NotChosen(multiset(s), l, forAmount, forFee, forAmount);
      feeLeft := GreedyLeavesFee(rest, amount, fee, forAmount, forFee);
    }
  }

  lemma FeeHadHead(s: seq<SlimLeaf>, forAmount: seq<SlimLeaf>, forFee: seq<SlimLeaf>, others: seq<SlimLeaf>)
    requires s != [] && multiset(forAmount) + multiset(forFee) <= multiset(s) && s[0] in forFee
    requires multiset(others) == multiset(forFee) - multiset{s[0]}
    ensures multiset(forAmount) + multiset(others) <= multiset(s[1..])
  {
    HeadAndTail(s);
    OneLess(multiset(forAmount), multiset(forFee), multiset(s), s[0]);
    assert multiset(s) - multiset{s[0]} == multiset(s[1..]);
  }

  lemma OneLess(a: multiset<SlimLeaf>, b: multiset<SlimLeaf>, s: multiset<SlimLeaf>, l: SlimLeaf)
    requires a + b <= s && l in b
    ensures a + (b - multiset{l}) <= s - multiset{l}
  {
    forall x ensures (a + (b - multiset{l}))[x] <= (s - multiset{l})[x] {
      assert (a + b)[x] <= s[x];
    }
  }

  lemma OneMore(a: multiset<SlimLeaf>, s: multiset<SlimLeaf>, l: SlimLeaf)
    requires a <= s - multiset{l} && l in s
    ensures multiset{l} + a <= s
  {
    forall x ensures (multiset{l} + a)[x] <= s[x] {
      assert a[x] <= (s - multiset{l})[x];
    }
  }

  // ----- the search ------------------------------------------------------------------------------------

  /** What is found for the amount leaves a choice for the fee. */
  lemma AmountLeavesFee(s: seq<SlimLeaf>, amount: nat, fee: nat, forAmount: seq<SlimLeaf>, forFee: seq<SlimLeaf>)
    returns (feeLeft: seq<SlimLeaf>)
    requires amount > 0 && AllPowersOfTwo(s) && MakesBoth(s, amount, fee, forAmount, forFee)
    ensures ExactAmount(s, amount).Ok? && Total(feeLeft) == fee
    ensures multiset(ExactAmount(s, amount).value) + multiset(feeLeft) <= multiset(s)
  {
    Drawn(s, forAmount);
    TotalOfPart(s, forAmount);
    if FindSingle(s, amount).Some? {
      feeLeft := SingleLeavesFee(s, amount, fee, forAmount, forFee);
    } else {
      var d := SortDescending(s);
      SortDescends(s);
      SortPermutes(s);
      Drawn(s, d);
      feeLeft := GreedyLeavesFee(d, amount, fee, forAmount, forFee);
      assert s != [] && FindMultiple(s, amount) == Greedy(d, amount) by {
        assert forAmount[0] in forAmount;
      }
    }
  }

  lemma SingleLeavesFee(s: seq<SlimLeaf>, amount: nat, fee: nat, forAmount: seq<SlimLeaf>, forFee: seq<SlimLeaf>)
    returns (feeLeft: seq<SlimLeaf>)
    requires amount > 0 && AllPowersOfTwo(s) && MakesBoth(s, amount, fee, forAmount, forFee)
    requires FindSingle(s, amount).Some?
    ensures Total(feeLeft) == fee
    ensures multiset([FindSingle(s, amount).value]) + multiset(feeLeft) <= multiset(s)
  {
    var l := FindSingle(s, amount).value;
    FindSingleFinds(s, amount);
    Drawn(s, forAmount);
    forall x | x in forAmount ensures x.value <= l.value {
      SmallChoice(forAmount, x);
    }
    var none;
    none, feeLeft := TakeOne(multiset(s), l, forAmount, forFee);
    OneMore(multiset(feeLeft), multiset(s), l);
    assert multiset([l]) == multiset{l};
  }

  lemma {:induction false} FindSingleFinds(s: seq<SlimLeaf>, amount: nat)
    requires FindSingle(s, amount).Some?
    ensures FindSingle(s, amount).value in s && FindSingle(s, amount).value.value == amount
    decreases s
  {
    if s[0].value != amount {
      FindSingleFinds(s[1..], amount);
    }
  }

  /** Candidates apart from some chosen ones are not dropped with them. */
  lemma Undropped(s: seq<SlimLeaf>, chosen: seq<SlimLeaf>, others: seq<SlimLeaf>)
    requires Distinct(IdsOf(s)) && multiset(chosen) + multiset(others) <= multiset(s)
    ensures multiset(others) <= multiset(Dropping(s, SlimIds(chosen)))
  {
    var rest := Dropping(s, SlimIds(chosen));
    Drawn(s, chosen);
    Drawn(s, others);
    DroppingKeeps(s, SlimIds(chosen));
    forall l ensures multiset(others)[l] <= multiset(rest)[l] {
      if l in multiset(others) {
        assert l in others && l in s;
        DistinctMeansOnce(s, l);
        NotAmong(s, chosen, others, l);
        assert l in rest && l in multiset(rest);
      }
    }
  }

  lemma NotAmong(s: seq<SlimLeaf>, chosen: seq<SlimLeaf>, others: seq<SlimLeaf>, l: SlimLeaf)
    requires Distinct(IdsOf(s)) && multiset(chosen) + multiset(others) <= multiset(s)
    requires l in others && l in s && multiset(s)[l] == 1
    ensures l.id !in SlimIds(chosen)
  {
    OnceOnly(s, chosen, others, l);
    Drawn(s, chosen);
    forall m | m in chosen ensures m.id != l.id {
      OtherId(s, m, l);
    }
  }

  lemma OnceOnly(s: seq<SlimLeaf>, chosen: seq<SlimLeaf>, others: seq<SlimLeaf>, l: SlimLeaf)
    requires multiset(chosen) + multiset(others) <= multiset(s) && l in others && multiset(s)[l] == 1
    ensures l !in chosen
  {
    assert l in multiset(others);
    assert multiset(chosen)[l] + multiset(others)[l] <= multiset(s)[l];
    assert l !in multiset(chosen);
  }

  lemma OtherId(s: seq<SlimLeaf>, m: SlimLeaf, l: SlimLeaf)
    requires Distinct(IdsOf(s)) && m in s && l in s && m != l
    ensures m.id != l.id
  {
    var i :| 0 <= i < |s| && s[i] == m;
    var j :| 0 <= j < |s| && s[j] == l;
    assert IdsOf(s)[i] != IdsOf(s)[j];
  }

  /** On a pool of powers of two, an amount and a fee are both found exactly when neither is zero
      and the pool holds a choice for each with no leaf in both. */
  lemma FeeIff(s: seq<SlimLeaf>, amount: U64, fee: U64)
    requires AllPowersOfTwo(s) && Distinct(IdsOf(s))
    ensures SelectByTargets(s, Some(AmountAndFee(amount, Some(fee)))).Ok? <==>
      amount > 0 && fee > 0 && exists forAmount, forFee :: MakesBoth(s, amount, fee, forAmount, forFee)
  {
    var target := Some(AmountAndFee(amount, Some(fee)));
    if SelectByTargets(s, target).Ok? {
      var r := SelectByTargets(s, target).value;
      SelectionPicks(s, target);
      assert multiset(r.All()) == multiset(r.amountLeaves) + multiset(r.feeLeaves.value);
      assert MakesBoth(s, amount, fee, r.amountLeaves, r.feeLeaves.value);
    }
    if amount > 0 && fee > 0 && exists forAmount, forFee :: MakesBoth(s, amount, fee, forAmount, forFee) {
      var forAmount, forFee :| MakesBoth(s, amount, fee, forAmount, forFee);
      FeeFinds(s, amount, fee, forAmount, forFee);
    }
  }

  lemma FeeFinds(s: seq<SlimLeaf>, amount: U64, fee: U64, forAmount: seq<SlimLeaf>, forFee: seq<SlimLeaf>)
    requires amount > 0 && fee > 0 && AllPowersOfTwo(s) && Distinct(IdsOf(s))
    requires MakesBoth(s, amount, fee, forAmount, forFee)
    ensures SelectByTargets(s, Some(AmountAndFee(amount, Some(fee)))).Ok?
  {
    var left := AmountLeavesFee(s, amount, fee, forAmount, forFee);
    var chosen := ExactAmount(s, amount).value;
    Drawn(s, left);
    Undropped(s, chosen, left);
    ExactFinds(Dropping(s, SlimIds(chosen)), fee, left);
  }
}

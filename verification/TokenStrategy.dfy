/** Which outputs a selection prefers: an exact match alone, and otherwise the smallest or the
    largest first, for every target of a request. */
module TokenStrategy {
  import opened Base
  import opened TokenSelection

  /** No candidate passed over is strictly smaller than a picked one, or, largest first, strictly
      larger; the picks come in that order themselves. */
  ghost predicate InOrder(candidates: set<TokenOutput>, strategy: Strategy, pick: seq<TokenOutput>)
  {
    match strategy
    case SmallestFirst =>
      && (forall x, y :: x in pick && y in candidates && y !in pick ==> x.amount <= y.amount)
      && (forall i, j :: 0 <= i < j < |pick| ==> pick[i].amount <= pick[j].amount)
    case LargestFirst =>
      && (forall x, y :: x in pick && y in candidates && y !in pick ==> x.amount >= y.amount)
      && (forall i, j :: 0 <= i < j < |pick| ==> pick[i].amount >= pick[j].amount)
  }

  ghost predicate HasExact(candidates: set<TokenOutput>, target: Target)
  {
    target.MinTotalValue? && exists x :: x in candidates && x.amount == target.amount
  }

  /** What a pick owes its strategy: one output of the exact value if there is one; otherwise
      outputs in order, and for a value no more of them than it takes. */
  ghost predicate Follows(candidates: set<TokenOutput>, target: Target, strategy: Strategy, pick: seq<TokenOutput>)
  {
    if HasExact(candidates, target) then
      |pick| == 1 && pick[0] in candidates && pick[0].amount == target.amount
    else
      && InOrder(candidates, strategy, pick)
      && (target.MinTotalValue? ==> forall n :: 0 <= n < |pick| ==> TotalAmount(pick[..n]) < target.amount)
  }

  // ----- one target ---------------------------------------------------------------------------------

  ghost predicate Arranged(strategy: Strategy, s: seq<TokenOutput>)
  {
    forall i, j :: 0 <= i < j < |s| ==>
      if strategy == SmallestFirst then s[i].amount <= s[j].amount else s[i].amount >= s[j].amount
  }

  lemma FrontArranged(strategy: Strategy, x: TokenOutput, s: seq<TokenOutput>)
    requires Arranged(strategy, s)
    requires forall y :: y in s ==> if strategy == SmallestFirst then x.amount <= y.amount else x.amount >= y.amount
    ensures Arranged(strategy, Prepend(x, s))
  {
    var p := Prepend(x, s);
    forall i, j | 0 <= i < j < |p|
      ensures if strategy == SmallestFirst then p[i].amount <= p[j].amount else p[i].amount >= p[j].amount
    {
      assert p[j] == p[1..][j - 1] && p[j] in s;
      if i > 0 {
        assert p[i] == p[1..][i - 1];
      }
    }
  }

  lemma {:induction false} InsertArranged(strategy: Strategy, x: TokenOutput, s: seq<TokenOutput>)
    requires Arranged(strategy, s)
    ensures Arranged(strategy, Insert(strategy, x, s))
    decreases s
  {
    if s != [] && !Before(strategy, x, s[0]) {
      InsertArranged(strategy, x, s[1..]);
      InsertKeeps(strategy, x, s[1..]);
      FrontArranged(strategy, s[0], Insert(strategy, x, s[1..]));
    } else if s != [] {
      FrontArranged(strategy, x, s);
    }
  }

  lemma {:induction false} SortedArranged(strategy: Strategy, s: seq<TokenOutput>)
    ensures Arranged(strategy, Sorted(strategy, s))
    decreases s
  {
    if s != [] {
      SortedArranged(strategy, s[1..]);
      InsertArranged(strategy, s[0], Sorted(strategy, s[1..]));
    }
  }

  lemma PrefixHolds<T>(s: seq<T>, n: nat)
    requires n <= |s|
    ensures forall j :: 0 <= j < n ==> s[j] in s[..n]
  {
    forall j | 0 <= j < n ensures s[j] in s[..n] {
      assert s[..n][j] == s[j];
    }
  }

  /** A prefix of an arrangement of the candidates is in order. */
  lemma PrefixInOrder(candidates: set<TokenOutput>, strategy: Strategy, s: seq<TokenOutput>, n: nat)
    requires n <= |s| && Arranged(strategy, s) && forall y :: y in candidates ==> y in s
    ensures InOrder(candidates, strategy, s[..n])
  {
    PrefixHolds(s, n);
    forall x, y | x in s[..n] && y in candidates && y !in s[..n]
      ensures if strategy == SmallestFirst then x.amount <= y.amount else x.amount >= y.amount
    {
      var i :| 0 <= i < n && s[i] == x;
      var j :| 0 <= j < |s| && s[j] == y;
    }
  }

  /** Accumulation stops as soon as the amount is reached. */
  lemma {:induction false} AccumulateStops(s: seq<TokenOutput>, remaining: nat, n: nat)
    requires Accumulate(s, remaining).Some? && n < |Accumulate(s, remaining).value|
    ensures TotalAmount(Accumulate(s, remaining).value[..n]) < remaining
    decreases s
  {
    var less := if s[0].amount >= remaining then 0 else remaining - s[0].amount;
    var rest := Accumulate(s[1..], less).value;
    if n > 0 {
      assert Prepend(s[0], rest)[..n][1..] == rest[..n - 1];
      AccumulateStops(s[1..], less, n - 1);
    }
  }

  lemma {:induction false} ExactFound(s: seq<TokenOutput>, x: TokenOutput)
    requires x in s
    ensures FindExact(s, x.amount).Some?
    decreases s
  {
    if s[0].amount != x.amount {
      ExactFound(s[1..], x);
    }
  }

  /** The selection for one target prefers what its strategy says. */
  lemma SelectFromFollows(token: string, outputs: seq<TokenOutput>, target: Target, strategy: Strategy)
    requires SelectFrom(token, outputs, target, strategy).Ok?
    ensures Follows((set x | x in outputs), target, strategy, SelectFrom(token, outputs, target, strategy).value)
  {
    var candidates := set x | x in outputs;
    var s, pick := Sorted(strategy, outputs), SelectFrom(token, outputs, target, strategy).value;
    SortedKeeps(strategy, outputs);
    SortedArranged(strategy, outputs);
    if HasExact(candidates, target) {
      var x :| x in candidates && x.amount == target.amount;
      ExactFound(outputs, x);
      FindExactFinds(outputs, target.amount);
    } else if target.MinTotalValue? {
      FindExactFinds(outputs, target.amount);
      AccumulateTakes(s, target.amount);
      assert pick == s[..|pick|];
      PrefixInOrder(candidates, strategy, s, |pick|);
      forall n | 0 <= n < |pick| ensures TotalAmount(pick[..n]) < target.amount {
        AccumulateStops(s, target.amount, n);
      }
    } else {
      assert s[..|s|] == s;
      PrefixInOrder(candidates, strategy, s, |pick|);
    }
  }

  // ----- every target -------------------------------------------------------------------------------

  /** What the target at `i` may pick from: available outputs of its token, preferred if the caller
      prefers some, and not taken before. */
  ghost function CandidatesFor(pool: seq<TokenOutput>, preferred: Option<set<Outpoint>>, taken: set<Outpoint>,
                               picks: seq<seq<TokenOutput>>, i: nat, token: string): set<TokenOutput>
    requires i <= |picks|
  {
    set y | y in pool && y.token == token && (preferred.Some? ==> y.at in preferred.value) && y.at !in taken
      && forall j :: 0 <= j < i ==> y.at !in Outpoints(picks[j])
  }

  /** Every target of a request is covered by outputs its strategy prefers among those that the
      targets before it left. */
  lemma {:induction false} ReReadFollows(pool: seq<TokenOutput>, preferred: Option<set<Outpoint>>,
                                         requests: seq<Request>, strategy: Strategy, taken: set<Outpoint>)
    requires Unique(pool) && ReRead(pool, preferred, requests, strategy, taken).Ok?
    ensures var picks := ReRead(pool, preferred, requests, strategy, taken).value;
      && |picks| == |requests|
      && forall i :: 0 <= i < |requests| ==>
           Follows(CandidatesFor(pool, preferred, taken, picks, i, requests[i].token), requests[i].target, strategy,
                   picks[i])
    decreases requests
  {
    if requests != [] {
      var token, target := requests[0].token, requests[0].target;
      var candidates := Candidates(pool, preferred, taken, token);
      var chosen := SelectFrom(token, candidates, target, strategy).value;
      var taken' := taken + Outpoints(chosen);
      var rest := ReRead(pool, preferred, requests[1..], strategy, taken').value;
      var picks := Prepend(chosen, rest);
      CandidatesUnique(pool, preferred, taken, token);
      SelectFromFollows(token, candidates, target, strategy);
      ReReadFollows(pool, preferred, requests[1..], strategy, taken');
      assert (set x | x in candidates) == CandidatesFor(pool, preferred, taken, picks, 0, token);
      forall i | 0 < i < |requests|
        ensures Follows(CandidatesFor(pool, preferred, taken, picks, i, requests[i].token), requests[i].target,
                        strategy, picks[i])
      {
        TailCandidates(pool, preferred, taken, chosen, rest, i, requests[i].token);
        assert requests[1..][i - 1] == requests[i] && picks[i] == picks[1..][i - 1];
      }
    }
  }

  // ----- when a request is covered ----------------------------------------------------------------------

  function AmountOf(): TokenOutput -> int { (x: TokenOutput) => x.amount }

  /** What the next target of a token may still be covered with. */
  ghost function LeftFor(pool: seq<TokenOutput>, preferred: Option<set<Outpoint>>, taken: set<Outpoint>,
                         picks: seq<seq<TokenOutput>>, token: string): int
  {
    Sum(CandidatesFor(pool, preferred, taken, picks, |picks|, token), AmountOf())
  }

  lemma TailMembers(s: seq<TokenOutput>)
    requires Unique(s) && s != []
    ensures s[0] in s && (set x | x in s) - {s[0]} == set x | x in s[1..]
  {
    assert s == [s[0]] + s[1..];
    forall x | x in s[1..] ensures x != s[0] {
      var i :| 0 <= i < |s[1..]| && s[1..][i] == x;
      assert s[i + 1] == x;
    }
  }

  lemma {:induction false} TotalIsSum(s: seq<TokenOutput>)
    requires Unique(s)
    ensures TotalAmount(s) == Sum((set x | x in s), AmountOf())
    decreases s
  {
    if s == [] {
      assert (set x | x in s) == {};
    } else {
      UniqueTail(s);
      TotalIsSum(s[1..]);
      TailMembers(s);
      SumRemove((set x | x in s), AmountOf(), s[0]);
    }
  }

  /** The request is covered as far as its first `n` targets. */
  ghost predicate CoveredTo(pool: seq<TokenOutput>, preferred: Option<set<Outpoint>>, requests: seq<Request>,
                            strategy: Strategy, taken: set<Outpoint>, n: nat)
    requires n <= |requests|
  {
    ReRead(pool, preferred, requests[..n], strategy, taken).Ok?
  }

  /** The targets before `n` are covered, and what they leave for it is worth less than it asks. */
  ghost predicate FallsShort(pool: seq<TokenOutput>, preferred: Option<set<Outpoint>>, requests: seq<Request>,
                             strategy: Strategy, taken: set<Outpoint>, n: nat)
  {
    && n < |requests| && CoveredTo(pool, preferred, requests, strategy, taken, n)
    && requests[n].target.MinTotalValue?
    && LeftFor(pool, preferred, taken, ReRead(pool, preferred, requests[..n], strategy, taken).value,
               requests[n].token) < requests[n].target.amount
  }

  /** A request fails exactly when, for some value target, what the targets before it left of the
      token is worth less than it asks, and the error names that target's token. */
  lemma {:induction false} ReReadFailsIff(pool: seq<TokenOutput>, preferred: Option<set<Outpoint>>,
                                          requests: seq<Request>, strategy: Strategy, taken: set<Outpoint>)
    requires Unique(pool)
    ensures var r := ReRead(pool, preferred, requests, strategy, taken);
      && (r.Err? <==> exists n: nat :: FallsShort(pool, preferred, requests, strategy, taken, n))
      && forall n: nat :: FallsShort(pool, preferred, requests, strategy, taken, n) ==>
           r == Err(InsufficientFunds(Some(requests[n].token)))
    decreases requests
  {
    if requests != [] {
      var r, token := ReRead(pool, preferred, requests, strategy, taken), requests[0].token;
      var chosen := SelectFrom(token, Candidates(pool, preferred, taken, token), requests[0].target, strategy);
      FirstFallsShort(pool, preferred, requests, strategy, taken);
      if chosen.Ok? {
        var taken' := taken + Outpoints(chosen.value);
        ReReadFailsIff(pool, preferred, requests[1..], strategy, taken');
        forall n: nat ensures FallsShort(pool, preferred, requests, strategy, taken, n + 1)
            == FallsShort(pool, preferred, requests[1..], strategy, taken', n)
        {
          LaterFallsShort(pool, preferred, requests, strategy, taken, n);
        }
        TailFails(pool, preferred, requests, strategy, taken, chosen.value, r);
      } else {
        NoneLater(pool, preferred, requests, strategy, taken);
      }
    }
  }

  /** With the first target covered, the request fails where the rest of it does. */
  lemma TailFails(pool: seq<TokenOutput>, preferred: Option<set<Outpoint>>, requests: seq<Request>,
                  strategy: Strategy, taken: set<Outpoint>, chosen: seq<TokenOutput>,
                  r: Result<seq<seq<TokenOutput>>, TokenError>)
    requires requests != [] && !FallsShort(pool, preferred, requests, strategy, taken, 0)
    requires var taken' := taken + Outpoints(chosen);
      && (forall n: nat :: FallsShort(pool, preferred, requests, strategy, taken, n + 1)
           == FallsShort(pool, preferred, requests[1..], strategy, taken', n))
      && (r.Err? <==> exists n: nat :: FallsShort(pool, preferred, requests[1..], strategy, taken', n))
      && forall n: nat :: FallsShort(pool, preferred, requests[1..], strategy, taken', n) ==>
           r == Err(InsufficientFunds(Some(requests[1..][n].token)))
    ensures r.Err? <==> exists n: nat :: FallsShort(pool, preferred, requests, strategy, taken, n)
    ensures forall n: nat :: FallsShort(pool, preferred, requests, strategy, taken, n) ==>
      r == Err(InsufficientFunds(Some(requests[n].token)))
  {
    var taken' := taken + Outpoints(chosen);
    if r.Err? {
      var n: nat :| FallsShort(pool, preferred, requests[1..], strategy, taken', n);
      assert FallsShort(pool, preferred, requests, strategy, taken, n + 1);
    }
    forall n: nat | FallsShort(pool, preferred, requests, strategy, taken, n)
      ensures r == Err(InsufficientFunds(Some(requests[n].token)))
    {
      assert FallsShort(pool, preferred, requests, strategy, taken, n - 1 + 1);
      assert requests[n] == requests[1..][n - 1];
    }
  }

  /** With the first target uncovered, no later one is reached. */
  lemma NoneLater(pool: seq<TokenOutput>, preferred: Option<set<Outpoint>>, requests: seq<Request>,
                  strategy: Strategy, taken: set<Outpoint>)
    requires requests != []
    requires SelectFrom(requests[0].token, Candidates(pool, preferred, taken, requests[0].token), requests[0].target,
      strategy).Err?
    ensures forall n: nat :: FallsShort(pool, preferred, requests, strategy, taken, n) ==> n == 0
  {
    forall n: nat | 0 < n <= |requests| ensures !CoveredTo(pool, preferred, requests, strategy, taken, n) {
      assert requests[..n][0] == requests[0];
    }
  }

  lemma FirstFallsShort(pool: seq<TokenOutput>, preferred: Option<set<Outpoint>>, requests: seq<Request>,
                        strategy: Strategy, taken: set<Outpoint>)
    requires Unique(pool) && requests != []
    ensures CoveredTo(pool, preferred, requests, strategy, taken, 0)
    ensures var candidates := Candidates(pool, preferred, taken, requests[0].token);
      var chosen := SelectFrom(requests[0].token, candidates, requests[0].target, strategy);
      && (chosen.Err? <==> FallsShort(pool, preferred, requests, strategy, taken, 0))
      && (chosen.Err? ==> chosen == Err(InsufficientFunds(Some(requests[0].token))))
  {
    var token := requests[0].token;
    var candidates := Candidates(pool, preferred, taken, token);
    CandidatesUnique(pool, preferred, taken, token);
    SelectFromMeets(token, candidates, requests[0].target, strategy);
    TotalIsSum(candidates);
    assert requests[..0] == [];
    assert (set x | x in candidates) == CandidatesFor(pool, preferred, taken, [], 0, token);
  }

  lemma LaterFallsShort(pool: seq<TokenOutput>, preferred: Option<set<Outpoint>>, requests: seq<Request>,
                        strategy: Strategy, taken: set<Outpoint>, n: nat)
    requires requests != []
    requires SelectFrom(requests[0].token, Candidates(pool, preferred, taken, requests[0].token), requests[0].target,
      strategy).Ok?
    ensures var chosen := SelectFrom(requests[0].token, Candidates(pool, preferred, taken, requests[0].token),
      requests[0].target, strategy).value;
      FallsShort(pool, preferred, requests, strategy, taken, n + 1)
      == FallsShort(pool, preferred, requests[1..], strategy, taken + Outpoints(chosen), n)
  {
    if n + 1 < |requests| {
      var chosen := SelectFrom(requests[0].token, Candidates(pool, preferred, taken, requests[0].token),
        requests[0].target, strategy).value;
      var taken' := taken + Outpoints(chosen);
      assert requests[..n + 1][1..] == requests[1..][..n] && requests[..n + 1][0] == requests[0];
      assert requests[1..][n] == requests[n + 1];
      var rest := ReRead(pool, preferred, requests[1..][..n], strategy, taken');
      if rest.Ok? {
        assert ReRead(pool, preferred, requests[..n + 1], strategy, taken) == Ok(Prepend(chosen, rest.value));
        TailCandidates(pool, preferred, taken, chosen, rest.value, |rest.value| + 1, requests[n + 1].token);
      }
    }
  }

  lemma TailCandidates(pool: seq<TokenOutput>, preferred: Option<set<Outpoint>>, taken: set<Outpoint>,
                       chosen: seq<TokenOutput>, rest: seq<seq<TokenOutput>>, i: nat, token: string)
    requires 0 < i <= |rest| + 1
    ensures CandidatesFor(pool, preferred, taken, Prepend(chosen, rest), i, token)
      == CandidatesFor(pool, preferred, taken + Outpoints(chosen), rest, i - 1, token)
  {
    var picks := Prepend(chosen, rest);
    assert forall j :: 1 <= j < |picks| ==> picks[j] == picks[1..][j - 1];
    forall y | y in CandidatesFor(pool, preferred, taken, picks, i, token)
      ensures y in CandidatesFor(pool, preferred, taken + Outpoints(chosen), rest, i - 1, token)
    {
      assert y.at !in Outpoints(picks[0]);
      assert forall j :: 0 <= j < i - 1 ==> rest[j] == picks[j + 1];
    }
  }
}

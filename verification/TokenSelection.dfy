/** Token output selection: the helper that covers one target, and the two ways the stores cover a
    list of targets. */
module TokenSelection {
  import opened Base

  datatype Outpoint = Outpoint(hash: string, vout: nat)
  /** `keys` stands for the fields no query looks at. */
  datatype TokenOutput = TokenOutput(at: Outpoint, token: string, amount: nat, keys: string)
  datatype Target = MinTotalValue(amount: nat) | MaxOutputCount(count: nat)
  datatype Request = Request(token: string, target: Target)
  datatype Strategy = SmallestFirst | LargestFirst
  datatype TokenError = NotFound(identifier: string) | InsufficientFunds(token: Option<string>) | ZeroTarget | NoTargets

  function TotalAmount(s: seq<TokenOutput>): nat
  {
    if s == [] then 0 else s[0].amount + TotalAmount(s[1..])
  }

  function Outpoints(s: seq<TokenOutput>): set<Outpoint> { set x | x in s :: x.at }

  /** The primary key: no outpoint twice. */
  ghost predicate Unique(s: seq<TokenOutput>)
  {
    forall i, j :: 0 <= i < j < |s| ==> s[i].at != s[j].at
  }

  // ----- one target ----------------------------------------------------------------------------

  predicate Before(strategy: Strategy, x: TokenOutput, y: TokenOutput)
  {
    if strategy == SmallestFirst then x.amount <= y.amount else x.amount >= y.amount
  }

  function Insert(strategy: Strategy, x: TokenOutput, s: seq<TokenOutput>): seq<TokenOutput>
  {
    if s == [] then [x]
    else if Before(strategy, x, s[0]) then Prepend(x, s)
    else Prepend(s[0], Insert(strategy, x, s[1..]))
  }

  /** A stable sort by amount. */
  function Sorted(strategy: Strategy, s: seq<TokenOutput>): seq<TokenOutput>
  {
    if s == [] then [] else Insert(strategy, s[0], Sorted(strategy, s[1..]))
  }

  function FindExact(s: seq<TokenOutput>, amount: nat): Option<TokenOutput>
  {
    if s == [] then None else if s[0].amount == amount then Some(s[0]) else FindExact(s[1..], amount)
  }

  /** Takes outputs in order until nothing remains to cover. */
  function Accumulate(s: seq<TokenOutput>, remaining: nat): Option<seq<TokenOutput>>
  {
    if remaining == 0 then Some([])
    else if s == [] then None
    else
      var rest := Accumulate(s[1..], if s[0].amount >= remaining then 0 else remaining - s[0].amount);
      if rest.Some? then Some(Prepend(s[0], rest.value)) else None
  }

  /** `select_token_outputs_from`. */
  function SelectFrom(token: string, outputs: seq<TokenOutput>, target: Target,
                      strategy: Strategy): Result<seq<TokenOutput>, TokenError>
  {
    match target
    case MinTotalValue(amount) =>
      if TotalAmount(outputs) < amount then Err(InsufficientFunds(Some(token)))
      else if FindExact(outputs, amount).Some? then Ok([FindExact(outputs, amount).value])
      else
        (match Accumulate(Sorted(strategy, outputs), amount)
         case None => Err(InsufficientFunds(Some(token)))
         case Some(chosen) => Ok(chosen))
    case MaxOutputCount(count) =>
      var s := Sorted(strategy, outputs);
      Ok(if count <= |s| then s[..count] else s)
  }

  lemma {:induction false} InsertKeeps(strategy: Strategy, x: TokenOutput, s: seq<TokenOutput>)
    ensures forall y :: y in Insert(strategy, x, s) <==> y == x || y in s
    ensures |Insert(strategy, x, s)| == |s| + 1
    ensures TotalAmount(Insert(strategy, x, s)) == x.amount + TotalAmount(s)
    ensures Unique(s) && x.at !in Outpoints(s) ==> Unique(Insert(strategy, x, s))
    decreases s
  {
    if s != [] && !Before(strategy, x, s[0]) {
      InsertKeeps(strategy, x, s[1..]);
      assert s == [s[0]] + s[1..];
      var rest := Insert(strategy, x, s[1..]);
      if Unique(s) && x.at !in Outpoints(s) {
        assert Unique(s[1..]);
        assert x.at !in Outpoints(s[1..]);
        forall i | 0 <= i < |rest| ensures rest[i].at != s[0].at {
          assert rest[i] in rest;
          if rest[i] != x {
            var j :| 0 <= j < |s[1..]| && s[1..][j] == rest[i];
            assert s[j + 1] == rest[i];
          } else {
            assert s[0] in s;
          }
        }
        UniqueFront(s[0], rest);
      }
      PrependMembers(s[0], rest);
    } else {
      if s == [] {
        assert [x][1..] == [];
      } else {
        PrependMembers(x, s);
        if x.at !in Outpoints(s) {
          forall i | 0 <= i < |s| ensures s[i].at != x.at {
            assert s[i] in s;
          }
          if Unique(s) {
            UniqueFront(x, s);
          }
        }
      }
    }
  }

  lemma PrependMembers(x: TokenOutput, s: seq<TokenOutput>)
    ensures forall y :: y in Prepend(x, s) <==> y == x || y in s
  {
    var p := Prepend(x, s);
    assert p == [x] + s;
  }

  lemma UniqueFront(x: TokenOutput, s: seq<TokenOutput>)
    requires Unique(s) && forall i :: 0 <= i < |s| ==> s[i].at != x.at
    ensures Unique(Prepend(x, s))
  {
    var p := Prepend(x, s);
    forall i, j | 0 <= i < j < |p| ensures p[i].at != p[j].at {
      assert p[j] == p[1..][j - 1];
      if i > 0 {
        assert p[i] == p[1..][i - 1];
      }
    }
  }

  lemma UniqueTail(s: seq<TokenOutput>)
    requires s != [] && Unique(s)
    ensures Unique(s[1..]) && s[0].at !in Outpoints(s[1..])
  {
    forall x | x in s[1..] ensures x.at != s[0].at {
      var j :| 0 <= j < |s[1..]| && s[1..][j] == x;
      assert s[j + 1] == x;
    }
  }

  lemma {:induction false} SortedKeeps(strategy: Strategy, s: seq<TokenOutput>)
    ensures forall y :: y in Sorted(strategy, s) <==> y in s
    ensures |Sorted(strategy, s)| == |s| && TotalAmount(Sorted(strategy, s)) == TotalAmount(s)
    ensures Unique(s) ==> Unique(Sorted(strategy, s))
    decreases s
  {
    if s != [] {
      SortedKeeps(strategy, s[1..]);
      InsertKeeps(strategy, s[0], Sorted(strategy, s[1..]));
      assert s == [s[0]] + s[1..];
      if Unique(s) {
        UniqueTail(s);
        assert s[0].at !in Outpoints(Sorted(strategy, s[1..]));
      }
    }
  }

  /** Accumulation succeeds exactly when there is enough, and takes a prefix that reaches. */
  lemma {:induction false} AccumulateTakes(s: seq<TokenOutput>, remaining: nat)
    ensures Accumulate(s, remaining).Some? <==> TotalAmount(s) >= remaining
    ensures Accumulate(s, remaining).Some? ==>
      Accumulate(s, remaining).value <= s && TotalAmount(Accumulate(s, remaining).value) >= remaining
    decreases s
  {
    if remaining > 0 && s != [] {
      var less := if s[0].amount >= remaining then 0 else remaining - s[0].amount;
      AccumulateTakes(s[1..], less);
      if Accumulate(s[1..], less).Some? {
        var rest := Accumulate(s[1..], less).value;
        assert s[1..][..|rest|] == rest;
        assert Prepend(s[0], rest) == s[..|rest| + 1];
      }
    }
  }

  lemma {:induction false} FindExactFinds(s: seq<TokenOutput>, amount: nat)
    ensures FindExact(s, amount).Some? ==>
      FindExact(s, amount).value in s && FindExact(s, amount).value.amount == amount
    decreases s
  {
    if s != [] && s[0].amount != amount {
      FindExactFinds(s[1..], amount);
    }
  }

  /** A value target is covered exactly when the candidates total it, a count target always; the
      choice comes from the candidates, takes none twice and meets the target. */
  lemma SelectFromMeets(token: string, outputs: seq<TokenOutput>, target: Target, strategy: Strategy)
    requires Unique(outputs)
    ensures var r := SelectFrom(token, outputs, target, strategy);
      && (r.Ok? <==> (target.MinTotalValue? ==> TotalAmount(outputs) >= target.amount))
      && (r.Ok? ==> Unique(r.value) && forall x :: x in r.value ==> x in outputs)
      && (r.Ok? && target.MinTotalValue? ==> TotalAmount(r.value) >= target.amount)
      && (r.Ok? && target.MaxOutputCount? ==>
        |r.value| == if target.count <= |outputs| then target.count else |outputs|)
  {
    var s := Sorted(strategy, outputs);
    SortedKeeps(strategy, outputs);
    if target.MinTotalValue? {
      AccumulateTakes(s, target.amount);
      FindExactFinds(outputs, target.amount);
      if TotalAmount(outputs) >= target.amount && FindExact(outputs, target.amount).Some? {
        var one := FindExact(outputs, target.amount).value;
        assert TotalAmount([one]) == one.amount + TotalAmount([one][1..]);
      }
    }
  }

  // ----- a list of targets: two ways -------------------------------------------------------------

  function Keep(s: seq<TokenOutput>, p: TokenOutput -> bool): seq<TokenOutput>
  {
    if s == [] then [] else if p(s[0]) then Prepend(s[0], Keep(s[1..], p)) else Keep(s[1..], p)
  }

  predicate Prefers(preferred: Option<set<Outpoint>>, x: TokenOutput)
  {
    preferred.Some? ==> x.at in preferred.value
  }

  function Wanted(preferred: Option<set<Outpoint>>, taken: set<Outpoint>, token: string): TokenOutput -> bool
  {
    (x: TokenOutput) => x.token == token && Prefers(preferred, x) && x.at !in taken
  }

  function NotIn(taken: set<Outpoint>): TokenOutput -> bool { (x: TokenOutput) => x.at !in taken }

  /** The available outputs of a token, preferred and not taken, in scan order. */
  function Candidates(pool: seq<TokenOutput>, preferred: Option<set<Outpoint>>, taken: set<Outpoint>,
                      token: string): seq<TokenOutput>
  {
    Keep(pool, Wanted(preferred, taken, token))
  }

  /** MySQL: each target reads the token's outputs again and leaves out what is taken. */
  function ReRead(pool: seq<TokenOutput>, preferred: Option<set<Outpoint>>, requests: seq<Request>, strategy: Strategy,
                  taken: set<Outpoint>): Result<seq<seq<TokenOutput>>, TokenError>
    decreases requests
  {
    if requests == [] then Ok([])
    else
      var chosen := SelectFrom(requests[0].token, Candidates(pool, preferred, taken, requests[0].token),
        requests[0].target, strategy);
      if chosen.Err? then Err(chosen.error)
      else
        var rest := ReRead(pool, preferred, requests[1..], strategy, taken + Outpoints(chosen.value));
        if rest.Ok? then Ok(Prepend(chosen.value, rest.value)) else rest
  }

  function Leftover(groups: map<string, seq<TokenOutput>>, token: string): seq<TokenOutput>
  {
    if token in groups then groups[token] else []
  }

  /** PostgreSQL: one read, grouped by token; each target leaves what it did not take. */
  function Threaded(groups: map<string, seq<TokenOutput>>, requests: seq<Request>,
                    strategy: Strategy): Result<seq<seq<TokenOutput>>, TokenError>
    decreases requests
  {
    if requests == [] then Ok([])
    else
      var token, candidates := requests[0].token, Leftover(groups, requests[0].token);
      var chosen := SelectFrom(token, candidates, requests[0].target, strategy);
      if chosen.Err? then Err(chosen.error)
      else
        var rest := Threaded(groups[token := Keep(candidates, NotIn(Outpoints(chosen.value)))],
          requests[1..], strategy);
        if rest.Ok? then Ok(Prepend(chosen.value, rest.value)) else rest
  }

  lemma {:induction false} KeepTwice(s: seq<TokenOutput>, p: TokenOutput -> bool, q: TokenOutput -> bool,
                                     both: TokenOutput -> bool)
    requires forall x :: both(x) == (p(x) && q(x))
    ensures Keep(Keep(s, p), q) == Keep(s, both)
    decreases s
  {
    if s != [] {
      KeepTwice(s[1..], p, q, both);
    }
  }

  lemma {:induction false} KeepSame(s: seq<TokenOutput>, p: TokenOutput -> bool, q: TokenOutput -> bool)
    requires forall x :: x in s ==> p(x) == q(x)
    ensures Keep(s, p) == Keep(s, q)
    decreases s
  {
    if s != [] {
      assert s[0] in s;
      KeepSame(s[1..], p, q);
    }
  }

  lemma {:induction false} KeepUnique(s: seq<TokenOutput>, p: TokenOutput -> bool)
    requires Unique(s)
    ensures Unique(Keep(s, p)) && forall x :: x in Keep(s, p) <==> x in s && p(x)
    decreases s
  {
    if s != [] {
      UniqueTail(s);
      KeepUnique(s[1..], p);
      var rest := Keep(s[1..], p);
      assert s == [s[0]] + s[1..];
      if p(s[0]) {
        forall i | 0 <= i < |rest| ensures rest[i].at != s[0].at {
          assert rest[i] in rest;
        }
        UniqueFront(s[0], rest);
        PrependMembers(s[0], rest);
      }
    }
  }

  /** The groups hold, for every token, what a fresh read minus the taken would give. */
  ghost predicate GroupsCurrent(groups: map<string, seq<TokenOutput>>, pool: seq<TokenOutput>,
                                preferred: Option<set<Outpoint>>, taken: set<Outpoint>)
  {
    forall token :: Leftover(groups, token) == Candidates(pool, preferred, taken, token)
  }

  /** Taking outputs of one token leaves the other tokens' candidates, and the token's own less
      what was taken. */
  lemma TakingKeepsCurrent(groups: map<string, seq<TokenOutput>>, pool: seq<TokenOutput>,
                           preferred: Option<set<Outpoint>>,
                           taken: set<Outpoint>, token: string, chosen: seq<TokenOutput>)
    requires Unique(pool) && GroupsCurrent(groups, pool, preferred, taken)
    requires forall x :: x in chosen ==> x in Candidates(pool, preferred, taken, token)
    ensures var out := Outpoints(chosen);
      GroupsCurrent(groups[token := Keep(Leftover(groups, token), NotIn(out))], pool, preferred, taken + out)
  {
    var out := Outpoints(chosen);
    var groups' := groups[token := Keep(Leftover(groups, token), NotIn(out))];
    forall other ensures Leftover(groups', other) == Candidates(pool, preferred, taken + out, other) {
      var before, after := Wanted(preferred, taken, other), Wanted(preferred, taken + out, other);
      assert Leftover(groups, other) == Candidates(pool, preferred, taken, other);
      if other == token {
        KeepTwice(pool, before, NotIn(out), after);
      } else {
        forall x | x in pool ensures before(x) == after(x) {
          TakenIsOfToken(pool, preferred, taken, token, chosen, x);
        }
        KeepSame(pool, before, after);
      }
    }
  }

  lemma TakenIsOfToken(pool: seq<TokenOutput>, preferred: Option<set<Outpoint>>, taken: set<Outpoint>, token: string,
                       chosen: seq<TokenOutput>, x: TokenOutput)
    requires Unique(pool) && x in pool && forall y :: y in chosen ==> y in Candidates(pool, preferred, taken, token)
    ensures x.at in Outpoints(chosen) ==> x.token == token
  {
    if x.at in Outpoints(chosen) {
      var y :| y in chosen && y.at == x.at;
      KeepUnique(pool, Wanted(preferred, taken, token));
      var i :| 0 <= i < |pool| && pool[i] == x;
      var j :| 0 <= j < |pool| && pool[j] == y;
    }
  }

  lemma CandidatesUnique(pool: seq<TokenOutput>, preferred: Option<set<Outpoint>>, taken: set<Outpoint>, token: string)
    requires Unique(pool)
    ensures Unique(Candidates(pool, preferred, taken, token))
    ensures forall x :: x in Candidates(pool, preferred, taken, token) <==>
      x in pool && x.token == token && Prefers(preferred, x) && x.at !in taken
  {
    KeepUnique(pool, Wanted(preferred, taken, token));
  }

  /** The two stores' selections succeed on the same lists of targets and pick the same outputs,
      target by target. */
  lemma {:induction false} SelectionsAgree(groups: map<string, seq<TokenOutput>>, pool: seq<TokenOutput>,
                                           preferred: Option<set<Outpoint>>,
                                           requests: seq<Request>, strategy: Strategy, taken: set<Outpoint>)
    requires Unique(pool) && GroupsCurrent(groups, pool, preferred, taken)
    ensures Threaded(groups, requests, strategy) == ReRead(pool, preferred, requests, strategy, taken)
    decreases requests
  {
    if requests != [] {
      var token, target := requests[0].token, requests[0].target;
      var candidates := Candidates(pool, preferred, taken, token);
      var chosen := SelectFrom(token, candidates, target, strategy);
      if chosen.Ok? {
        CandidatesUnique(pool, preferred, taken, token);
        SelectFromMeets(token, candidates, target, strategy);
        TakingKeepsCurrent(groups, pool, preferred, taken, token, chosen.value);
        var out := Outpoints(chosen.value);
        SelectionsAgree(groups[token := Keep(Leftover(groups, token), NotIn(out))], pool, preferred,
                        requests[1..], strategy, taken + out);
      }
    }
  }

  // ----- what a selection means --------------------------------------------------------------------

  /** Picks come from the pool, off the taken, each for its own token; no output is picked twice,
      neither by one target nor by two; every value target is covered by its own pick. */
  ghost predicate GoodPicks(pool: seq<TokenOutput>, preferred: Option<set<Outpoint>>, requests: seq<Request>,
                            taken: set<Outpoint>, picks: seq<seq<TokenOutput>>)
  {
    && |picks| == |requests|
    && (forall i :: 0 <= i < |picks| ==> Unique(picks[i]))
    && (forall i :: 0 <= i < |picks| ==> FromPool(pool, preferred, taken, requests[i].token, picks[i]))
    && (forall i, j :: 0 <= i < j < |picks| ==> Outpoints(picks[i]) !! Outpoints(picks[j]))
    && (forall i :: 0 <= i < |picks| && requests[i].target.MinTotalValue? ==>
      TotalAmount(picks[i]) >= requests[i].target.amount)
  }

  ghost predicate FromPool(pool: seq<TokenOutput>, preferred: Option<set<Outpoint>>, taken: set<Outpoint>,
                           token: string, pick: seq<TokenOutput>)
  {
    forall x :: x in pick ==> x in pool && x.token == token && Prefers(preferred, x) && x.at !in taken
  }

  lemma {:induction false} PicksAreGood(pool: seq<TokenOutput>, preferred: Option<set<Outpoint>>,
                                        requests: seq<Request>, strategy: Strategy, taken: set<Outpoint>)
    requires Unique(pool) && ReRead(pool, preferred, requests, strategy, taken).Ok?
    ensures GoodPicks(pool, preferred, requests, taken, ReRead(pool, preferred, requests, strategy, taken).value)
    decreases requests
  {
    if requests != [] {
      var token := requests[0].token;
      var candidates := Candidates(pool, preferred, taken, token);
      var chosen := SelectFrom(token, candidates, requests[0].target, strategy).value;
      CandidatesUnique(pool, preferred, taken, token);
      SelectFromMeets(token, candidates, requests[0].target, strategy);
      var taken' := taken + Outpoints(chosen);
      PicksAreGood(pool, preferred, requests[1..], strategy, taken');
      FirstPick(pool, preferred, requests, taken, chosen,
        ReRead(pool, preferred, requests[1..], strategy, taken').value);
    }
  }

  lemma FirstPick(pool: seq<TokenOutput>, preferred: Option<set<Outpoint>>, requests: seq<Request>,
                  taken: set<Outpoint>, chosen: seq<TokenOutput>, rest: seq<seq<TokenOutput>>)
    requires requests != [] && Unique(chosen) && FromPool(pool, preferred, taken, requests[0].token, chosen)
    requires requests[0].target.MinTotalValue? ==> TotalAmount(chosen) >= requests[0].target.amount
    requires GoodPicks(pool, preferred, requests[1..], taken + Outpoints(chosen), rest)
    ensures GoodPicks(pool, preferred, requests, taken, Prepend(chosen, rest))
  {
    var picks := Prepend(chosen, rest);
    assert forall i :: 1 <= i < |picks| ==> picks[i] == rest[i - 1];
    assert forall i :: 1 <= i < |requests| ==> requests[i] == requests[1..][i - 1];
    forall j | 1 <= j < |picks| ensures Outpoints(picks[0]) !! Outpoints(picks[j]) {
      assert FromPool(pool, preferred, taken + Outpoints(chosen), requests[1..][j - 1].token, rest[j - 1]);
    }
    forall j | 1 <= j < |picks| ensures FromPool(pool, preferred, taken, requests[j].token, picks[j]) {
      assert FromPool(pool, preferred, taken + Outpoints(chosen), requests[1..][j - 1].token, rest[j - 1]);
    }
    forall i, j | 0 <= i < j < |picks| ensures Outpoints(picks[i]) !! Outpoints(picks[j]) {
      if i > 0 {
        assert Outpoints(rest[i - 1]) !! Outpoints(rest[j - 1]);
      }
    }
  }

  // ----- repeated tokens -----------------------------------------------------------------------------

  function Flat(picks: seq<seq<TokenOutput>>): seq<TokenOutput>
  {
    if picks == [] then [] else picks[0] + Flat(picks[1..])
  }

  /** All that the value targets of one token ask for. */
  function Asked(requests: seq<Request>, token: string): nat
  {
    if requests == [] then 0
    else (if requests[0].token == token && requests[0].target.MinTotalValue? then requests[0].target.amount else 0)
         + Asked(requests[1..], token)
  }

  function AmountOf(s: seq<TokenOutput>, token: string): nat
  {
    if s == [] then 0 else (if s[0].token == token then s[0].amount else 0) + AmountOf(s[1..], token)
  }

  lemma {:induction false} AmountOfConcat(a: seq<TokenOutput>, b: seq<TokenOutput>, token: string)
    ensures AmountOf(a + b, token) == AmountOf(a, token) + AmountOf(b, token)
    decreases a
  {
    if a == [] {
      assert a + b == b;
    } else {
      assert (a + b)[1..] == a[1..] + b;
      AmountOfConcat(a[1..], b, token);
    }
  }

  lemma {:induction false} AmountOfOwn(s: seq<TokenOutput>, token: string)
    requires forall x :: x in s ==> x.token == token
    ensures AmountOf(s, token) == TotalAmount(s)
    decreases s
  {
    if s != [] {
      assert s[0] in s;
      AmountOfOwn(s[1..], token);
    }
  }

  lemma {:induction false} CoveredInSum(pool: seq<TokenOutput>, preferred: Option<set<Outpoint>>,
                                        requests: seq<Request>, taken: set<Outpoint>,
                                        picks: seq<seq<TokenOutput>>, token: string)
    requires |picks| == |requests|
    requires forall i :: 0 <= i < |picks| ==> FromPool(pool, preferred, taken, requests[i].token, picks[i])
    requires forall i :: 0 <= i < |picks| && requests[i].target.MinTotalValue? ==>
      TotalAmount(picks[i]) >= requests[i].target.amount
    ensures AmountOf(Flat(picks), token) >= Asked(requests, token)
    decreases requests
  {
    if requests != [] {
      CoveredInSum(pool, preferred, requests[1..], taken, picks[1..], token);
      AmountOfConcat(picks[0], Flat(picks[1..]), token);
      if requests[0].token == token {
        assert FromPool(pool, preferred, taken, requests[0].token, picks[0]);
        AmountOfOwn(picks[0], token);
      }
    }
  }

  /** Targets repeated for one token are covered in sum, by outputs none of which counts twice. */
  lemma RepeatedTargetsCovered(pool: seq<TokenOutput>, preferred: Option<set<Outpoint>>, requests: seq<Request>,
                               strategy: Strategy, token: string)
    requires Unique(pool) && ReRead(pool, preferred, requests, strategy, {}).Ok?
    ensures var picks := ReRead(pool, preferred, requests, strategy, {}).value;
      Unique(Flat(picks)) && AmountOf(Flat(picks), token) >= Asked(requests, token)
  {
    PicksAreGood(pool, preferred, requests, strategy, {});
    var picks := ReRead(pool, preferred, requests, strategy, {}).value;
    CoveredInSum(pool, preferred, requests, {}, picks, token);
    FlatUnique(picks);
  }

  lemma {:induction false} FlatOutpoints(picks: seq<seq<TokenOutput>>, o: Outpoint)
    ensures o in Outpoints(Flat(picks)) ==> exists i :: 0 <= i < |picks| && o in Outpoints(picks[i])
    decreases picks
  {
    if picks != [] && o in Outpoints(Flat(picks)) {
      var x :| x in Flat(picks) && x.at == o;
      if x !in picks[0] {
        assert x in Flat(picks[1..]);
        FlatOutpoints(picks[1..], o);
        var i :| 0 <= i < |picks[1..]| && o in Outpoints(picks[1..][i]);
        assert picks[i + 1] == picks[1..][i];
      }
    }
  }

  lemma {:induction false} FlatUnique(picks: seq<seq<TokenOutput>>)
    requires forall i :: 0 <= i < |picks| ==> Unique(picks[i])
    requires forall i, j :: 0 <= i < j < |picks| ==> Outpoints(picks[i]) !! Outpoints(picks[j])
    ensures Unique(Flat(picks))
    decreases picks
  {
    if picks != [] {
      FlatUnique(picks[1..]);
      var a, b := picks[0], Flat(picks[1..]);
      forall o | o in Outpoints(b) ensures o !in Outpoints(a) {
        FlatOutpoints(picks[1..], o);
        var i :| 0 <= i < |picks[1..]| && o in Outpoints(picks[1..][i]);
        assert picks[i + 1] == picks[1..][i];
      }
      forall i, j | 0 <= i < j < |a + b| ensures (a + b)[i].at != (a + b)[j].at {
        if i < |a| <= j {
          assert a[i] in a && b[j - |a|] in b;
          assert a[i].at in Outpoints(a) && b[j - |a|].at in Outpoints(b);
        }
      }
    }
  }
}

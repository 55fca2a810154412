/** The token-output stores as they execute: MySQL's transactions over its tables, and
    PostgreSQL's own way of selecting and grouping. */
module TokenStore {
  import opened Base
  import opened TokenSelection
  import opened TokenGrouping
  import opened TokenTables
  import opened TokenOps
  import TreeTables

  datatype Selection = Selection(metadata: seq<Metadata>, outputs: seq<TokenOutput>)

  function Tokens(requests: seq<Request>): set<string> { set q | q in requests :: q.token }

  function MetadataTokens(ms: seq<Metadata>): set<string> { set m | m in ms :: m.identifier }

  /** `pool` lists every available output once, in the order the server scans them. */
  ghost predicate Scans(t: TokenTables, pool: seq<TokenOutput>)
  {
    && Unique(pool)
    && forall x :: x in pool <==> x.at in t.outputs && t.outputs[x.at].output == x && t.outputs[x.at].reservation.None?
  }

  /** What both stores promise of a selection: it succeeds exactly when every token is known and
      every target can be covered, and then picks what the re-reading selection picks. */
  ghost predicate Selects(t: TokenTables, pool: seq<TokenOutput>, requests: seq<Request>,
                          preferred: Option<set<Outpoint>>, strategy: Strategy, r: Result<Selection, TokenError>)
  {
    && (r.Ok? <==> Tokens(requests) <= t.metadata.Keys && ReRead(pool, preferred, requests, strategy, {}).Ok?)
    && (r.Ok? ==> r.value.outputs == Flat(ReRead(pool, preferred, requests, strategy, {}).value))
    && (r.Ok? ==> MetadataTokens(r.value.metadata) == Tokens(requests))
  }

  ghost predicate NoneZero(requests: seq<Request>)
  {
    forall q :: q in requests ==> q.target != MinTotalValue(0) && q.target != MaxOutputCount(0)
  }

  predicate KnownTokens(t: TokenTables, os: set<Outpoint>)
  {
    forall o :: o in os && o in t.outputs ==> t.outputs[o].output.token in t.metadata
  }

  /** `validate_targets`: no target asks for nothing. */
  method ValidateTargets(requests: seq<Request>) returns (ok: bool)
    ensures ok <==> NoneZero(requests)
  {
    for i := 0 to |requests|
      invariant forall j :: 0 <= j < i ==>
        requests[j].target != MinTotalValue(0) && requests[j].target != MaxOutputCount(0)
    {
      if requests[i].target == MinTotalValue(0) || requests[i].target == MaxOutputCount(0) {
        assert requests[i] in requests;
        return false;
      }
    }
    return true;
  }

  lemma {:induction false} FlatSnoc(picks: seq<seq<TokenOutput>>, p: seq<TokenOutput>)
    ensures Flat(picks + [p]) == Flat(picks) + p
    decreases picks
  {
    if picks == [] {
      assert picks + [p] == [p] && [p][1..] == [];
    } else {
      assert (picks + [p])[1..] == picks[1..] + [p];
      FlatSnoc(picks[1..], p);
    }
  }

  /** What is left to select, after some picks, decides the whole. */
  ghost predicate SoFar(whole: Result<seq<seq<TokenOutput>>, TokenError>, picks: seq<seq<TokenOutput>>,
                        rest: Result<seq<seq<TokenOutput>>, TokenError>)
  {
    (whole.Ok? <==> rest.Ok?) && (rest.Ok? ==> whole.value == picks + rest.value)
  }

  lemma TokensSnoc(requests: seq<Request>, i: nat)
    requires i < |requests|
    ensures Tokens(requests[..i + 1]) == Tokens(requests[..i]) + {requests[i].token}
  {
    assert requests[..i + 1] == requests[..i] + [requests[i]];
  }

  // ----- PostgreSQL ------------------------------------------------------------------------------

  /** `group_outputs_by_token`. */
  method GroupOutputsByToken(outputs: seq<TokenOutput>) returns (grouped: seq<Group>)
    ensures grouped == Grouped(outputs)
  {
    grouped := [];
    for i := 0 to |outputs|
      invariant grouped == Grouped(outputs[..i])
    {
      ghost var before := grouped;
      var x := outputs[i];
      var j := 0;
      while j < |grouped| && grouped[j].token != x.token
        invariant j <= |grouped| && forall k :: 0 <= k < j ==> grouped[k].token != x.token
      {
        j := j + 1;
      }
      if j < |grouped| {
        grouped := grouped[j := Group(x.token, grouped[j].outputs + [x])];
      } else {
        grouped := grouped + [Group(x.token, [x])];
      }
      AddAt(before, x, j);
      assert outputs[..i + 1][..i] == outputs[..i];
    }
    assert outputs[..|outputs|] == outputs;
  }

  /** The tables a PostgreSQL instance reads. */
  class PostgresTokenStore {
    const tables: TokenTables

    constructor (tables: TokenTables)
      ensures this.tables == tables
    {
      this.tables := tables;
    }

    method AvailablePerToken(available: seq<TokenOutput>) returns (groups: map<string, seq<TokenOutput>>)
      ensures forall token :: Leftover(groups, token) == Keep(available, IsToken(token))
    {
      groups := map[];
      for i := 0 to |available|
        invariant forall token :: Leftover(groups, token) == Keep(available[..i], IsToken(token))
      {
        var x := available[i];
        ghost var before := groups;
        groups := groups[x.token := Leftover(groups, x.token) + [x]];
        forall token ensures Leftover(groups, token) == Keep(available[..i + 1], IsToken(token)) {
          assert Leftover(before, token) == Keep(available[..i], IsToken(token));
          assert available[..i + 1] == available[..i] + [x];
          KeepConcat(available[..i], [x], IsToken(token));
          KeepOne(x, IsToken(token));
        }
      }
      assert available[..|available|] == available;
    }

    /** The metadata of the requested tokens, or the first token that has none. */
    method FetchMetadata(requests: seq<Request>) returns (r: Result<seq<Metadata>, TokenError>)
      requires MetadataKeyed(tables)
      ensures r.Ok? <==> Tokens(requests) <= tables.metadata.Keys
      ensures r.Ok? ==> MetadataTokens(r.value) == Tokens(requests)
    {
      var metadata := [];
      for i := 0 to |requests|
        invariant Tokens(requests[..i]) <= tables.metadata.Keys
        invariant MetadataTokens(metadata) == Tokens(requests[..i])
      {
        var token := requests[i].token;
        TokensSnoc(requests, i);
        if token !in tables.metadata {
          assert requests[i] in requests;
          return Err(NotFound(token));
        }
        if token !in MetadataTokens(metadata) {
          AddMetadata(metadata, tables.metadata[token]);
          metadata := metadata + [tables.metadata[token]];
        }
      }
      assert requests[..|requests|] == requests;
      r := Ok(metadata);
    }

    /** Covers the targets one after the other; each target's leftovers are put back for the next. */
    method ThreadTargets(start: map<string, seq<TokenOutput>>, requests: seq<Request>, strategy: Strategy)
      returns (r: Result<seq<TokenOutput>, TokenError>)
      ensures r.Ok? <==> Threaded(start, requests, strategy).Ok?
      ensures r.Ok? ==> r.value == Flat(Threaded(start, requests, strategy).value)
    {
      var groups, selected := start, [];
      ghost var picks, whole := [], Threaded(start, requests, strategy);
      assert requests[0..] == requests;
      for i := 0 to |requests|
        invariant selected == Flat(picks) && SoFar(whole, picks, Threaded(groups, requests[i..], strategy))
      {
        var token := requests[i].token;
        var candidates := Leftover(groups, token);
        var chosen := SelectFrom(token, candidates, requests[i].target, strategy);
        assert requests[i..][1..] == requests[i + 1..];
        if chosen.Err? {
          return Err(chosen.error);
        }
        groups := groups[token := Keep(candidates, NotIn(Outpoints(chosen.value)))];
        selected := selected + chosen.value;
        FlatSnoc(picks, chosen.value);
        OneMorePick(whole, picks, chosen.value, Threaded(groups, requests[i + 1..], strategy));
        picks := picks + [chosen.value];
      }
      assert picks + [] == picks;
      r := Ok(selected);
    }

    method SelectForTargets(pool: seq<TokenOutput>, requests: seq<Request>, preferred: Option<set<Outpoint>>,
                            strategy: Strategy)
      returns (r: Result<Selection, TokenError>)
      requires Scans(tables, pool) && MetadataKeyed(tables)
      ensures Selects(tables, pool, requests, preferred, strategy, r)
    {
      var metadata := FetchMetadata(requests);
      if metadata.Err? {
        return Err(metadata.error);
      }
      var groups := AvailablePerToken(Keep(pool, NarrowedTo(preferred)));
      GroupsStartCurrent(groups, pool, preferred);
      SelectionsAgree(groups, pool, preferred, requests, strategy, {});
      var selected := ThreadTargets(groups, requests, strategy);
      if selected.Err? {
        return Err(selected.error);
      }
      r := Ok(Selection(metadata.value, selected.value));
    }
  }

  ghost predicate MetadataKeyed(t: TokenTables)
  {
    forall m :: m in t.metadata ==> t.metadata[m].identifier == m
  }

  lemma OneMorePick(whole: Result<seq<seq<TokenOutput>>, TokenError>, picks: seq<seq<TokenOutput>>,
                    pick: seq<TokenOutput>, rest: Result<seq<seq<TokenOutput>>, TokenError>)
    requires SoFar(whole, picks, if rest.Ok? then Ok(Prepend(pick, rest.value)) else rest)
    ensures SoFar(whole, picks + [pick], rest)
  {
    if rest.Ok? {
      assert picks + Prepend(pick, rest.value) == picks + [pick] + rest.value;
    }
  }

  lemma AddMetadata(ms: seq<Metadata>, m: Metadata)
    ensures MetadataTokens(ms + [m]) == MetadataTokens(ms) + {m.identifier}
  {}

  function NarrowedTo(preferred: Option<set<Outpoint>>): TokenOutput -> bool
  {
    (x: TokenOutput) => Prefers(preferred, x)
  }

  lemma GroupsStartCurrent(groups: map<string, seq<TokenOutput>>, pool: seq<TokenOutput>,
                           preferred: Option<set<Outpoint>>)
    requires forall token :: Leftover(groups, token) == Keep(Keep(pool, NarrowedTo(preferred)), IsToken(token))
    ensures GroupsCurrent(groups, pool, preferred, {})
  {
    forall token ensures Leftover(groups, token) == Candidates(pool, preferred, {}, token) {
      KeepTwice(pool, NarrowedTo(preferred), IsToken(token), Wanted(preferred, {}, token));
      assert Leftover(groups, token) == Keep(Keep(pool, NarrowedTo(preferred)), IsToken(token));
    }
  }

  // ----- MySQL -----------------------------------------------------------------------------------

  class MysqlTokenStore {
    const foreignKeys: bool
    var outputs: map<Outpoint, OutputRow>
    var reservations: map<Rid, TokenReservation>
    var spent: map<Outpoint, Time>
    var lastSwap: Option<Time>
    var metadata: map<string, Metadata>
    var clock: Time

    constructor (foreignKeys: bool, now: Time)
      ensures this.foreignKeys == foreignKeys && clock == now
      ensures Rows() == TokenTables(map[], map[], map[], None, map[])
    {
      this.foreignKeys := foreignKeys;
      outputs, reservations, spent, lastSwap, metadata := map[], map[], map[], None, map[];
      clock := now;
    }

    function Rows(): TokenTables
      reads this
    {
      TokenTables(outputs, reservations, spent, lastSwap, metadata)
    }

    /** The server's clock, read anew by each statement. */
    method UtcTimestamp() returns (now: Time)
      modifies this`clock
      ensures old(clock) <= now == clock
    {
      now :| clock <= now;
      clock := now;
    }

    method Restore(t: TokenTables)
      modifies this
      ensures Rows() == t && clock == old(clock)
    {
      outputs, reservations, spent, lastSwap, metadata := t.outputs, t.reservations, t.spent, t.lastSwap, t.metadata;
    }

    // ----- selection and claims ------------------------------------------------------------------

    /** Every target reads the token's available outputs again, and leaves out what is taken. */
    method SelectForTargets(pool: seq<TokenOutput>, requests: seq<Request>, preferred: Option<set<Outpoint>>,
                            strategy: Strategy)
      returns (r: Result<Selection, TokenError>)
      requires Scans(Rows(), pool) && MetadataKeyed(Rows())
      ensures Selects(Rows(), pool, requests, preferred, strategy, r)
    {
      var found, selected: seq<TokenOutput>, taken: set<Outpoint> := [], [], {};
      ghost var picks, whole := [], ReRead(pool, preferred, requests, strategy, {});
      assert requests[0..] == requests;
      for i := 0 to |requests|
        invariant Tokens(requests[..i]) <= metadata.Keys && MetadataTokens(found) == Tokens(requests[..i])
        invariant selected == Flat(picks)
          && SoFar(whole, picks, ReRead(pool, preferred, requests[i..], strategy, taken))
      {
        var token := requests[i].token;
        TokensSnoc(requests, i);
        if token !in metadata {
          assert requests[i] in requests;
          return Err(NotFound(token));
        }
        var candidates := Keep(pool, IsToken(token));
        if preferred.Some? {
          candidates := Keep(candidates, NarrowedTo(preferred));
        }
        candidates := Keep(candidates, NotIn(taken));
        RetainedTwice(pool, preferred, taken, token);

        var chosen := SelectFrom(token, candidates, requests[i].target, strategy);
        assert requests[i..][1..] == requests[i + 1..];
        if chosen.Err? {
          return Err(chosen.error);
        }
        taken := taken + Outpoints(chosen.value);
        selected := selected + chosen.value;
        FlatSnoc(picks, chosen.value);
        OneMorePick(whole, picks, chosen.value, ReRead(pool, preferred, requests[i + 1..], strategy, taken));
        picks := picks + [chosen.value];
        if token !in MetadataTokens(found) {
          AddMetadata(found, metadata[token]);
          found := found + [metadata[token]];
        }
      }
      assert picks + [] == picks && requests[..|requests|] == requests;
      r := Ok(Selection(found, selected));
    }

    method ClaimOutputs(rid: Rid, claimed: seq<TokenOutput>, purpose: Purpose) returns (ghost now: Time)
      modifies this
      ensures old(clock) <= now == clock
      ensures Rows() == Claimed(old(Rows()), rid, Outpoints(claimed), purpose, now)
    {
      var at := UtcTimestamp();
      now := at;
      reservations := reservations[rid := TokenReservation(purpose, at)];
      var outpoints := Outpoints(claimed);
      outputs := map o | o in outputs :: if o in outpoints then outputs[o].(reservation := Some(rid)) else outputs[o];
    }

    /** Selection and claim in one transaction. A success claims only outputs that were available,
        each of them once. */
    method ReserveTokenOutputs(rid: Rid, pool: seq<TokenOutput>, requests: seq<Request>, purpose: Purpose,
                               preferred: Option<set<Outpoint>>, strategy: Strategy)
      returns (r: Result<Selection, TokenError>, ghost op: TokenOp)
      requires Scans(Rows(), pool) && MetadataKeyed(Rows()) && rid !in reservations && Held(Rows(), rid) == {}
      modifies this
      ensures op.Claim? && op.rid == rid && op.purpose == purpose && Enabled(old(Rows()), op)
      ensures old(clock) <= clock && TimesIn(op, old(clock), clock)
      ensures r.Ok? ==>
        Selects(old(Rows()), pool, requests, preferred, strategy, r) && op.outpoints == Outpoints(r.value.outputs)
      ensures Rows() == if r.Ok? then Apply(foreignKeys, old(Rows()), op) else old(Rows())
      ensures r.Ok? ==> Unique(r.value.outputs)
      ensures r.Ok? <==>
        requests != [] && NoneZero(requests) && Tokens(requests) <= old(metadata.Keys)
        && ReRead(pool, preferred, requests, strategy, {}).Ok?
    {
      op := Claim(rid, {}, purpose, clock);
      if requests == [] {
        return Err(NoTargets), op;
      }
      var valid := ValidateTargets(requests);
      if !valid {
        return Err(ZeroTarget), op;
      }
      r := SelectForTargets(pool, requests, preferred, strategy);
      if r.Ok? {
        SelectionAvailable(Rows(), pool, requests, preferred, strategy);
        ghost var now := ClaimOutputs(rid, r.value.outputs, purpose);
        op := Claim(rid, Outpoints(r.value.outputs), purpose, now);
      }
    }

    /** Reserves exactly the named outputs, or nothing when one of them is not available. */
    method ReserveTokenOutputsByOutpoints(rid: Rid, outpoints: seq<Outpoint>, purpose: Purpose)
      returns (ok: bool, ghost op: TokenOp)
      requires rid !in reservations && Held(Rows(), rid) == {}
      modifies this
      ensures ok <==>
        outpoints != [] && (set o | o in outpoints) <= Available(old(Rows()))
        && KnownTokens(old(Rows()), set o | o in outpoints)
      ensures op.Claim? && op.rid == rid && op.purpose == purpose && op.outpoints == set o | o in outpoints
      ensures old(clock) <= clock && TimesIn(op, old(clock), clock)
      ensures ok ==> Enabled(old(Rows()), op)
      ensures Rows() == if ok then Apply(foreignKeys, old(Rows()), op) else old(Rows())
    {
      var wanted := set o | o in outpoints;
      var rows := set o | o in outputs && outputs[o].reservation.None? && o in wanted;
      ok := outpoints != [] && |rows| == |wanted| && KnownTokens(Rows(), rows);
      SubsetBySize(rows, wanted);
      ghost var now := clock;
      if ok {
        var at := UtcTimestamp();
        now := at;
        reservations := reservations[rid := TokenReservation(purpose, at)];
        outputs := map o | o in outputs :: if o in wanted then outputs[o].(reservation := Some(rid)) else outputs[o];
      }
      op := Claim(rid, wanted, purpose, now);
    }

    method CancelReservation(rid: Rid)
      modifies this
      ensures Rows() == Apply(foreignKeys, old(Rows()), CancelClaim(rid)) && clock == old(clock)
    {
      outputs := map o | o in outputs ::
        if outputs[o].reservation == Some(rid) then outputs[o].(reservation := None) else outputs[o];
      reservations := reservations - {rid};
    }

    /** Marks a reservation's outputs spent and takes them out with it. */
    method SpendHeld(rid: Rid) returns (spentAt: Time)
      modifies this
      ensures old(clock) <= spentAt == clock
      ensures var held := Held(old(Rows()), rid);
        Rows() == DeleteReservations(DeleteOutputs(MarkSpent(old(Rows()), held, spentAt), held), {rid})
    {
      var held := Held(Rows(), rid);
      spentAt := UtcTimestamp();
      spent := map o | o in spent.Keys + held :: if o in spent then spent[o] else spentAt;
      outputs := outputs - held;
      reservations := reservations - {rid};
    }

    method FinalizeReservation(rid: Rid) returns (ghost op: TokenOp)
      modifies this
      ensures op.FinalizeClaim? && op.rid == rid && old(clock) <= clock && TimesIn(op, old(clock), clock)
      ensures Rows() == Apply(foreignKeys, old(Rows()), op)
    {
      ghost var before, start := Rows(), clock;
      if rid !in reservations {
        return FinalizeClaim(rid, clock, clock);
      }
      var isSwap := reservations[rid].purpose == TreeTables.Swap;
      var spentAt := SpendHeld(rid);
      var swapAt := spentAt;
      if isSwap {
        swapAt := UtcTimestamp();
        lastSwap := Some(swapAt);
      }
      DeleteOrphanMetadata();
      op := FinalizeClaim(rid, spentAt, swapAt);
    }

    method DeleteOrphanMetadata()
      modifies this`metadata
      ensures Rows() == DropOrphanMetadata(old(Rows()))
    {
      var kept := TokensHeld(Rows());
      metadata := map m | m in metadata && m in kept :: metadata[m];
    }

    // ----- set_tokens_outputs ----------------------------------------------------------------------

    method CleanupStaleReservations() returns (ok: bool, ghost releaseAt: Time, ghost dropAt: Time)
      modifies this
      ensures old(clock) <= releaseAt <= dropAt <= clock
      ensures var c := CleanedUp(old(Rows()), releaseAt, dropAt);
        (ok <==> !foreignKeys || NoDangling(c)) && (ok ==> Rows() == c)
    {
      var now := UtcTimestamp();
      releaseAt := now;
      var t := ReleaseStale(Rows(), now);
      outputs := t.outputs;
      now := UtcTimestamp();
      dropAt := now;
      t := DropStale(Rows(), now);
      ok := !foreignKeys || NoDangling(t);
      if ok {
        reservations := t.reservations;
      }
    }

    /** The reserved outputs, by the reservation they belong to. */
    method ReservationOutputs() returns (r: map<Rid, seq<Outpoint>>)
      ensures forall rid :: rid in r <==> rid in reservations && Held(Rows(), rid) != {}
      ensures forall rid :: rid in r ==> OutpointSet(r[rid]) == Held(Rows(), rid)
    {
      r := map[];
      var t := Rows();
      var pairs := set o | o in outputs && outputs[o].reservation.Some? && outputs[o].reservation.value in reservations;
      var rest := pairs;
      while rest != {}
        invariant rest <= pairs && t == Rows()
        invariant forall rid :: rid in r <==> rid in reservations && Held(t, rid) - rest != {}
        invariant forall rid :: rid in r ==> OutpointSet(r[rid]) == Held(t, rid) - rest
        decreases rest
      {
        var o :| o in rest;
        var rid := outputs[o].reservation.value;
        ghost var before := r;
        r := r[rid := (if rid in r then r[rid] else []) + [o]];
        OutpointSetSnoc(if rid in before then before[rid] else [], o);
        forall other ensures Held(t, other) - (rest - {o}) ==
          (Held(t, other) - rest) + (if other == rid then {o} else {}) {
        }
        rest := rest - {o};
      }
      forall rid | rid in reservations ensures Held(t, rid) - {} == Held(t, rid) {
      }
    }

    /** Which reservations no longer hold anything reported, and which outputs of the others are
        no longer reported. */
    method FindUnreported(incoming: set<Outpoint>) returns (toDelete: set<Rid>, toRemove: seq<Outpoint>)
      ensures toDelete == Doomed(Rows(), incoming) && OutpointSet(toRemove) == Unreported(Rows(), incoming)
    {
      ghost var t := Rows();
      var held := ReservationOutputs();
      toDelete, toRemove := {}, [];
      var rest := held.Keys;
      while rest != {}
        invariant rest <= held.Keys && toDelete == (set r | r in Doomed(t, incoming) && r !in rest)
        invariant OutpointSet(toRemove) ==
          (set o | o in Unreported(t, incoming) && t.outputs[o].reservation.value !in rest)
        decreases rest
      {
        var rid :| rid in rest;
        var hasValid := exists o :: o in held[rid] && o in incoming;
        assert hasValid <==> !(Held(t, rid) !! incoming) by {
          SomeReported(held[rid], incoming);
        }
        if hasValid {
          var gone := NotReported(held[rid], incoming);
          OutpointSetConcat(toRemove, gone);
          toRemove := toRemove + gone;
          UnreportedOf(t, incoming, rid, rest, OutpointSet(gone));
        } else {
          toDelete := toDelete + {rid};
          NothingUnreportedOf(t, incoming, rid, rest);
        }
        rest := rest - {rid};
      }
      AllLooked(t, incoming, held.Keys);
    }

    /** Reconciles the reservations with the reported outputs. */
    method Reconcile(incoming: set<Outpoint>)
      modifies this`outputs, this`reservations
      ensures Rows() == Reconciled(old(Rows()), incoming)
    {
      ghost var t := Rows();
      var toDelete, toRemove := FindUnreported(incoming);
      if toDelete != {} {
        outputs := DeleteOutputsOf(Rows(), toDelete).outputs;
        reservations := reservations - toDelete;
      } else {
        DeletingNone(t);
      }
      if toRemove != [] {
        assert toRemove[0] in OutpointSet(toRemove);
        outputs := outputs - OutpointSet(toRemove);
        reservations := reservations - EmptyReservations(Rows());
      } else {
        assert OutpointSet(toRemove) == {};
      }
    }

    /** Stores the reported outputs: metadata once per token, then each output not to be skipped. */
    method StoreOutputs(outs: TokenOutputs, skip: set<Outpoint>) returns (ghost at: Outpoint -> Time)
      modifies this`outputs, this`metadata, this`clock
      ensures Rows() == StoreReported(old(Rows()), outs, outs.outputs, skip, at)
      ensures old(clock) <= clock && forall o :: old(clock) <= at(o) <= clock
    {
      ghost var before, from := Rows(), clock;
      at := (o: Outpoint) => from;
      var upserted: set<string> := {};
      var xs := outs.outputs;
      for i := 0 to |xs|
        invariant Rows() == StoreReported(before, outs, xs[..i], skip, at)
        invariant from <= clock && forall o :: from <= at(o) <= clock
        invariant forall m :: m in upserted ==> m in metadata && Some(metadata[m]) == outs.MetadataFor(m)
      {
        var x := xs[i];
        ghost var atBefore := at;
        assert xs[..i + 1] == xs[..i] + [x];
        var m := outs.MetadataFor(x.token);
        if m.Some? {
          if x.token !in upserted {
            metadata := metadata[m.value.identifier := m.value];
            upserted := upserted + {x.token};
          } else {
            assert metadata[x.token := m.value] == metadata;
          }
          if x.at !in skip && x.at !in outputs {
            var now := UtcTimestamp();
            outputs := outputs[x.at := OutputRow(x, None, now)];
            at := (p: Outpoint) => if p == x.at then now else atBefore(p);
            StoredLater(before, outs, xs[..i], skip, atBefore, at, x.at);
          }
        }
        StoreReportedSnoc(before, outs, xs[..i], x, skip, at);
      }
      assert xs[..|xs|] == xs;
    }

    method Proceed(outs: TokenOutputs, start: Time) returns (ghost at: Outpoint -> Time)
      modifies this
      ensures Rows() == Refreshed(old(Rows()), outs, start, at)
      ensures old(clock) <= clock && forall o :: old(clock) <= at(o) <= clock
    {
      ghost var c := Rows();
      spent := DropOldMarkers(Rows(), start).spent;
      var recently := RecentlySpent(Rows(), start);
      assert recently == RecentlySpent(c, start);
      outputs := DropStaleOutputs(Rows(), start).outputs;
      Reconcile(Outpoints(outs.outputs));
      var reserved := ReservedOutpoints(Rows());
      DeleteOrphanMetadata();
      assert reserved == ReservedOutpoints(Rows());
      at := StoreOutputs(outs, reserved + recently);
    }

    /** A refresh. One that fails or is skipped rolls everything back, its own cleanup too. */
    method SetTokensOutputs(outs: TokenOutputs, start: Time) returns (ok: bool, ghost op: TokenOp)
      modifies this
      ensures op.SetOutputs? && op.outs == outs && op.start == start
      ensures old(clock) <= clock && TimesIn(op, old(clock), clock)
      ensures Rows() == Apply(foreignKeys, old(Rows()), op)
      ensures ok <==> OutcomeOf(foreignKeys, old(Rows()), start, op.releaseAt, op.dropAt) != Failed
    {
      var before := Rows();
      ghost var releaseAt, dropAt;
      ok, releaseAt, dropAt := CleanupStaleReservations();
      ghost var now := clock;
      ghost var at := (o: Outpoint) => now;
      if !ok || Blocked(Rows(), start) {
        Restore(before);
      } else {
        at := Proceed(outs, start);
      }
      op := SetOutputs(outs, start, releaseAt, dropAt, at);
    }

    // ----- update_token_outputs --------------------------------------------------------------------

    method RemoveOne(o: Outpoint) returns (now: Time)
      modifies this
      ensures old(clock) <= now == clock && Rows() == MarkSpent(DeleteOutputs(old(Rows()), {o}), {o}, now)
    {
      outputs := outputs - {o};
      now := UtcTimestamp();
      spent := map p | p in spent.Keys + {o} :: if p in spent then spent[p] else now;
    }

    method RemoveOutputs(remove: seq<Outpoint>) returns (ghost at: Outpoint -> Time)
      modifies this
      ensures Rows() == RemoveSpent(old(Rows()), remove, at)
      ensures old(clock) <= clock && forall o :: old(clock) <= at(o) <= clock
    {
      ghost var before, from := Rows(), clock;
      at := (o: Outpoint) => from;
      for i := 0 to |remove|
        invariant Rows() == RemoveSpent(before, remove[..i], at)
        invariant from <= clock && forall o :: from <= at(o) <= clock
      {
        var o := remove[i];
        ghost var soFar, atBefore := Rows(), at;
        assert remove[..i + 1] == remove[..i] + [o];
        if o in outputs {
          var now := RemoveOne(o);
          at := (p: Outpoint) => if p == o then now else atBefore(p);
          RemovedLater(before, remove[..i], atBefore, at, o);
        }
        RemoveSpentSnoc(before, remove[..i], o, at);
      }
      assert remove[..|remove|] == remove;
    }

    method AddMetadataOf(outs: TokenOutputs) returns (insertable: seq<TokenOutput>)
      modifies this`metadata
      ensures Rows() == UpsertAllMetadata(old(Rows()), outs, outs.outputs)
      ensures insertable == Insertable(outs, outs.outputs)
    {
      ghost var before := Rows();
      insertable := [];
      var upserted: set<string> := {};
      var xs := outs.outputs;
      for i := 0 to |xs|
        invariant Rows() == UpsertAllMetadata(before, outs, xs[..i])
        invariant insertable == Insertable(outs, xs[..i])
        invariant forall m :: m in upserted ==> m in metadata && Some(metadata[m]) == outs.MetadataFor(m)
      {
        var x := xs[i];
        assert xs[..i + 1] == xs[..i] + [x];
        UpsertAllMetadataSnoc(before, outs, xs[..i], x);
        InsertableSnoc(outs, xs[..i], x);
        var m := outs.MetadataFor(x.token);
        if m.Some? {
          if x.token !in upserted {
            metadata := metadata[m.value.identifier := m.value];
            upserted := upserted + {x.token};
          } else {
            assert metadata[x.token := m.value] == metadata;
          }
          insertable := insertable + [x];
        }
      }
      assert xs[..|xs|] == xs;
    }

    method InsertOutputs(xs: seq<TokenOutput>) returns (ghost at: Outpoint -> Time)
      modifies this`outputs, this`clock
      ensures Rows() == InsertAll(old(Rows()), xs, at)
      ensures old(clock) <= clock && forall o :: old(clock) <= at(o) <= clock
    {
      ghost var before, from := Rows(), clock;
      at := (o: Outpoint) => from;
      for i := 0 to |xs|
        invariant Rows() == InsertAll(before, xs[..i], at)
        invariant from <= clock && forall o :: from <= at(o) <= clock
      {
        var x := xs[i];
        ghost var atBefore := at;
        assert xs[..i + 1] == xs[..i] + [x];
        var now := UtcTimestamp();
        if x.at !in outputs {
          outputs := outputs[x.at := OutputRow(x, None, now)];
          at := (p: Outpoint) => if p == x.at then now else atBefore(p);
          InsertedLater(before, xs[..i], atBefore, at, x.at);
        }
        InsertAllSnoc(before, xs[..i], x, at);
      }
      assert xs[..|xs|] == xs;
    }

    method UpdateTokenOutputs(remove: seq<Outpoint>, add: TokenOutputs) returns (ghost op: TokenOp)
      modifies this
      ensures op.UpdateOutputs? && op.remove == remove && op.add == add
      ensures Rows() == Apply(foreignKeys, old(Rows()), op)
      ensures old(clock) <= clock && TimesIn(op, old(clock), clock)
    {
      ghost var removedAt := RemoveOutputs(remove);
      var insertable := AddMetadataOf(add);
      spent := spent - Outpoints(insertable);
      ghost var at := InsertOutputs(insertable);
      op := UpdateOutputs(remove, add, removedAt, at);
    }
  }

  function OutpointSet(s: seq<Outpoint>): set<Outpoint> { set o | o in s }

  lemma OutpointSetConcat(a: seq<Outpoint>, b: seq<Outpoint>)
    ensures OutpointSet(a + b) == OutpointSet(a) + OutpointSet(b)
  {}

  lemma OutpointSetSnoc(a: seq<Outpoint>, o: Outpoint)
    ensures OutpointSet(a + [o]) == OutpointSet(a) + {o}
  {}

  lemma SomeReported(s: seq<Outpoint>, incoming: set<Outpoint>)
    ensures (exists o :: o in s && o in incoming) <==> !(OutpointSet(s) !! incoming)
  {
    if o :| o in s && o in incoming {
      assert o in OutpointSet(s);
    }
  }

  method NotReported(s: seq<Outpoint>, incoming: set<Outpoint>) returns (gone: seq<Outpoint>)
    ensures OutpointSet(gone) == OutpointSet(s) - incoming
  {
    gone := [];
    for i := 0 to |s|
      invariant OutpointSet(gone) == OutpointSet(s[..i]) - incoming
    {
      assert s[..i + 1] == s[..i] + [s[i]];
      OutpointSetSnoc(s[..i], s[i]);
      if s[i] !in incoming {
        OutpointSetSnoc(gone, s[i]);
        gone := gone + [s[i]];
      }
    }
    assert s[..|s|] == s;
  }

  lemma UnreportedOf(t: TokenTables, incoming: set<Outpoint>, rid: Rid, rest: set<Rid>, gone: set<Outpoint>)
    requires rid in rest && rid in t.reservations && !(Held(t, rid) !! incoming) && gone == Held(t, rid) - incoming
    ensures (set o | o in Unreported(t, incoming) && t.outputs[o].reservation.value !in rest - {rid})
      == (set o | o in Unreported(t, incoming) && t.outputs[o].reservation.value !in rest) + gone
    ensures (set r | r in Doomed(t, incoming) && r !in rest - {rid}) == (set r | r in Doomed(t, incoming) && r !in rest)
  {}

  lemma NothingUnreportedOf(t: TokenTables, incoming: set<Outpoint>, rid: Rid, rest: set<Rid>)
    requires rid in rest && rid in t.reservations && Held(t, rid) != {} && Held(t, rid) !! incoming
    ensures (set o | o in Unreported(t, incoming) && t.outputs[o].reservation.value !in rest - {rid})
      == (set o | o in Unreported(t, incoming) && t.outputs[o].reservation.value !in rest)
    ensures (set r | r in Doomed(t, incoming) && r !in rest - {rid}) ==
      (set r | r in Doomed(t, incoming) && r !in rest) + {rid}
  {}

  lemma AllLooked(t: TokenTables, incoming: set<Outpoint>, keys: set<Rid>)
    ensures (set o | o in Unreported(t, incoming) && t.outputs[o].reservation.value !in {}) == Unreported(t, incoming)
    ensures (set r | r in Doomed(t, incoming) && r !in {}) == Doomed(t, incoming)
  {}

  lemma DeletingNone(t: TokenTables)
    ensures DeleteReservations(DeleteOutputsOf(t, {}), {}) == t
  {
    assert DeleteOutputsOf(t, {}).outputs == t.outputs;
  }

  lemma {:induction false} StoreReportedSnoc(t: TokenTables, outs: TokenOutputs, xs: seq<TokenOutput>, x: TokenOutput,
                                             skip: set<Outpoint>, at: Outpoint -> Time)
    ensures StoreReported(t, outs, xs + [x], skip, at) ==
      var t1 := StoreReported(t, outs, xs, skip, at);
      var m := outs.MetadataFor(x.token);
      if m.None? then t1
      else if x.at in skip then UpsertMetadata(t1, m.value)
      else InsertOutput(UpsertMetadata(t1, m.value), x, at(x.at))
    decreases xs
  {
    if xs == [] {
      assert xs + [x] == [x] && [x][1..] == [];
    } else {
      assert (xs + [x])[1..] == xs[1..] + [x];
      var m := outs.MetadataFor(xs[0].token);
      var t1 := if m.None? then t
        else if xs[0].at in skip then UpsertMetadata(t, m.value)
        else InsertOutput(UpsertMetadata(t, m.value), xs[0], at(xs[0].at));
      StoreReportedSnoc(t1, outs, xs[1..], x, skip, at);
    }
  }

  lemma {:induction false} StoredLater(t: TokenTables, outs: TokenOutputs, xs: seq<TokenOutput>, skip: set<Outpoint>,
                                       at: Outpoint -> Time, at': Outpoint -> Time, o: Outpoint)
    requires o !in StoreReported(t, outs, xs, skip, at).outputs && forall p :: p != o ==> at(p) == at'(p)
    ensures StoreReported(t, outs, xs, skip, at) == StoreReported(t, outs, xs, skip, at')
    decreases xs
  {
    if xs != [] {
      var m := outs.MetadataFor(xs[0].token);
      var t1 := if m.None? then t
        else if xs[0].at in skip then UpsertMetadata(t, m.value)
        else InsertOutput(UpsertMetadata(t, m.value), xs[0], at(xs[0].at));
      StoreReportedRow(t1, outs, xs[1..], skip, at, o);
      StoredLater(t1, outs, xs[1..], skip, at, at', o);
    }
  }

  lemma RetainedTwice(pool: seq<TokenOutput>, preferred: Option<set<Outpoint>>, taken: set<Outpoint>, token: string)
    ensures var ofToken := Keep(pool, IsToken(token));
      Keep(if preferred.Some? then Keep(ofToken, NarrowedTo(preferred)) else ofToken, NotIn(taken)) ==
        Candidates(pool, preferred, taken, token)
  {
    var both := (x: TokenOutput) => x.token == token && Prefers(preferred, x);
    if preferred.Some? {
      KeepTwice(pool, IsToken(token), NarrowedTo(preferred), both);
    } else {
      KeepSame(pool, IsToken(token), both);
    }
    KeepTwice(pool, both, NotIn(taken), Wanted(preferred, taken, token));
  }

  lemma SelectionAvailable(t: TokenTables, pool: seq<TokenOutput>, requests: seq<Request>,
                           preferred: Option<set<Outpoint>>, strategy: Strategy)
    requires Scans(t, pool) && ReRead(pool, preferred, requests, strategy, {}).Ok?
    ensures var picked := Flat(ReRead(pool, preferred, requests, strategy, {}).value);
      Unique(picked) && Outpoints(picked) <= Available(t)
  {
    RepeatedTargetsCovered(pool, preferred, requests, strategy, "");
    PicksAreGood(pool, preferred, requests, strategy, {});
    var picks := ReRead(pool, preferred, requests, strategy, {}).value;
    forall o | o in Outpoints(Flat(picks)) ensures o in Available(t) {
      FlatOutpoints(picks, o);
      var i :| 0 <= i < |picks| && o in Outpoints(picks[i]);
      assert FromPool(pool, preferred, {}, requests[i].token, picks[i]);
    }
  }

  lemma {:induction false} SubsetBySize(part: set<Outpoint>, whole: set<Outpoint>)
    requires part <= whole
    ensures |part| == |whole| <==> part == whole
    decreases whole
  {
    if part != whole {
      var o :| o in whole && o !in part;
      if part != whole - {o} {
        SubsetBySize(part, whole - {o});
      }
      SizeAtMost(part, whole - {o});
    }
  }

  lemma {:induction false} SizeAtMost(part: set<Outpoint>, whole: set<Outpoint>)
    requires part <= whole
    ensures |part| <= |whole|
    decreases part
  {
    if part != {} {
      var o :| o in part;
      SizeAtMost(part - {o}, whole - {o});
    }
  }

  lemma {:induction false} RemoveSpentSnoc(t: TokenTables, remove: seq<Outpoint>, o: Outpoint, at: Outpoint -> Time)
    ensures RemoveSpent(t, remove + [o], at) ==
      var t1 := RemoveSpent(t, remove, at);
      if o in t1.outputs then MarkSpent(DeleteOutputs(t1, {o}), {o}, at(o)) else t1
    decreases remove
  {
    if remove == [] {
      assert remove + [o] == [o] && [o][1..] == [];
    } else {
      assert (remove + [o])[1..] == remove[1..] + [o];
      var p := remove[0];
      RemoveSpentSnoc(if p in t.outputs then MarkSpent(DeleteOutputs(t, {p}), {p}, at(p)) else t, remove[1..], o, at);
    }
  }

  /** The time of an output not removed yet does not matter. */
  lemma {:induction false} RemovedLater(t: TokenTables, remove: seq<Outpoint>, at: Outpoint -> Time,
                                        at': Outpoint -> Time, o: Outpoint)
    requires o in RemoveSpent(t, remove, at).outputs && forall p :: p != o ==> at(p) == at'(p)
    ensures RemoveSpent(t, remove, at) == RemoveSpent(t, remove, at')
    decreases remove
  {
    if remove != [] {
      var p := remove[0];
      var t1 := if p in t.outputs then MarkSpent(DeleteOutputs(t, {p}), {p}, at(p)) else t;
      RemovesOnly(t1, remove[1..], at);
      RemovedLater(t1, remove[1..], at, at', o);
    }
  }

  lemma {:induction false} RemovesOnly(t: TokenTables, remove: seq<Outpoint>, at: Outpoint -> Time)
    ensures RemoveSpent(t, remove, at).outputs.Keys <= t.outputs.Keys
    decreases remove
  {
    if remove != [] {
      var p := remove[0];
      RemovesOnly(if p in t.outputs then MarkSpent(DeleteOutputs(t, {p}), {p}, at(p)) else t, remove[1..], at);
    }
  }

  lemma {:induction false} UpsertAllMetadataSnoc(t: TokenTables, outs: TokenOutputs, xs: seq<TokenOutput>,
                                                 x: TokenOutput)
    ensures UpsertAllMetadata(t, outs, xs + [x]) ==
      var t1 := UpsertAllMetadata(t, outs, xs);
      var m := outs.MetadataFor(x.token);
      if m.Some? then UpsertMetadata(t1, m.value) else t1
    decreases xs
  {
    if xs == [] {
      assert xs + [x] == [x] && [x][1..] == [];
    } else {
      assert (xs + [x])[1..] == xs[1..] + [x];
      var m := outs.MetadataFor(xs[0].token);
      UpsertAllMetadataSnoc(if m.Some? then UpsertMetadata(t, m.value) else t, outs, xs[1..], x);
    }
  }

  lemma {:induction false} InsertableSnoc(outs: TokenOutputs, xs: seq<TokenOutput>, x: TokenOutput)
    ensures Insertable(outs, xs + [x]) == Insertable(outs, xs) + (if outs.MetadataFor(x.token).Some? then [x] else [])
    decreases xs
  {
    if xs == [] {
      assert xs + [x] == [x] && [x][1..] == [];
    } else {
      assert (xs + [x])[1..] == xs[1..] + [x];
      InsertableSnoc(outs, xs[1..], x);
    }
  }

  lemma {:induction false} InsertAllSnoc(t: TokenTables, xs: seq<TokenOutput>, x: TokenOutput, at: Outpoint -> Time)
    ensures InsertAll(t, xs + [x], at) == InsertOutput(InsertAll(t, xs, at), x, at(x.at))
    decreases xs
  {
    if xs == [] {
      assert xs + [x] == [x] && [x][1..] == [];
    } else {
      assert (xs + [x])[1..] == xs[1..] + [x];
      InsertAllSnoc(InsertOutput(t, xs[0], at(xs[0].at)), xs[1..], x, at);
    }
  }

  lemma {:induction false} InsertsStay(t: TokenTables, xs: seq<TokenOutput>, at: Outpoint -> Time)
    ensures t.outputs.Keys <= InsertAll(t, xs, at).outputs.Keys
    decreases xs
  {
    if xs != [] {
      InsertsStay(InsertOutput(t, xs[0], at(xs[0].at)), xs[1..], at);
    }
  }

  lemma {:induction false} InsertedLater(t: TokenTables, xs: seq<TokenOutput>, at: Outpoint -> Time,
                                         at': Outpoint -> Time, o: Outpoint)
    requires o !in InsertAll(t, xs, at).outputs && forall p :: p != o ==> at(p) == at'(p)
    ensures InsertAll(t, xs, at) == InsertAll(t, xs, at')
    decreases xs
  {
    if xs != [] {
      var t1 := InsertOutput(t, xs[0], at(xs[0].at));
      InsertsStay(t1, xs[1..], at);
      assert xs[0].at != o;
      InsertedLater(t1, xs[1..], at, at', o);
    }
  }
}

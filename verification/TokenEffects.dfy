/** What each operation on token outputs does to the tables, row by row, and how long a claim
    lasts. Of the outputs listed for one outpoint the first that comes with metadata is stored. */
module TokenEffects {
  import opened Base
  import opened TokenSelection
  import opened TokenTables
  import opened TokenOps
  import opened TokenClaims
  import TreeTables

  // ----- what is listed --------------------------------------------------------------------------------

  /** The first metadata listed for its token. */
  predicate FirstDescribed(outs: TokenOutputs, j: int)
  {
    0 <= j < |outs.metadata|
    && forall k :: 0 <= k < j ==> outs.metadata[k].identifier != outs.metadata[j].identifier
  }

  predicate Described(outs: TokenOutputs, token: string)
  {
    exists j :: 0 <= j < |outs.metadata| && outs.metadata[j].identifier == token
  }

  /** The output comes with metadata, and no earlier one of its outpoint does. */
  predicate FirstListed(outs: TokenOutputs, i: int)
  {
    && 0 <= i < |outs.outputs| && Described(outs, outs.outputs[i].token)
    && forall j :: 0 <= j < i && outs.outputs[j].at == outs.outputs[i].at ==> !Described(outs, outs.outputs[j].token)
  }

  predicate Listed(outs: TokenOutputs, o: Outpoint)
  {
    exists i :: 0 <= i < |outs.outputs| && outs.outputs[i].at == o && Described(outs, outs.outputs[i].token)
  }

  lemma {:induction false} MetadataIsFirst(ms: seq<Metadata>, j: int)
    requires 0 <= j < |ms| && forall k :: 0 <= k < j ==> ms[k].identifier != ms[j].identifier
    ensures FirstMetadata(ms, ms[j].identifier) == Some(ms[j])
    decreases ms
  {
    if j > 0 {
      assert forall k :: 0 <= k < |ms[1..]| ==> ms[1..][k] == ms[k + 1];
      MetadataIsFirst(ms[1..], j - 1);
    }
  }

  lemma {:induction false} DescribedIff(outs: TokenOutputs, ms: seq<Metadata>, token: string)
    ensures FirstMetadata(ms, token).Some? <==> exists j :: 0 <= j < |ms| && ms[j].identifier == token
    decreases ms
  {
    if ms != [] {
      DescribedIff(outs, ms[1..], token);
      if j :| 0 <= j < |ms[1..]| && ms[1..][j].identifier == token {
        assert ms[j + 1].identifier == token;
      }
      if j :| 1 <= j < |ms| && ms[j].identifier == token {
        assert ms[1..][j - 1].identifier == token;
      }
    }
  }

  lemma {:induction false} ReportIsFirst(outs: TokenOutputs, xs: seq<TokenOutput>, i: int)
    requires 0 <= i < |xs| && Described(outs, xs[i].token)
    requires forall j :: 0 <= j < i && xs[j].at == xs[i].at ==> !Described(outs, xs[j].token)
    ensures FirstReport(outs, xs, xs[i].at) == Some(xs[i])
    decreases xs
  {
    DescribedIff(outs, outs.metadata, xs[0].token);
    if i > 0 {
      assert forall j :: 0 <= j < |xs[1..]| ==> xs[1..][j] == xs[j + 1];
      ReportIsFirst(outs, xs[1..], i - 1);
    }
  }

  lemma ListedIff(outs: TokenOutputs, o: Outpoint)
    ensures Listed(outs, o) <==> FirstReport(outs, outs.outputs, o).Some?
  {
    FirstReportIff(outs, outs.outputs, o);
    if i :| 0 <= i < |outs.outputs| && outs.outputs[i].at == o && Described(outs, outs.outputs[i].token) {
      DescribedIff(outs, outs.metadata, outs.outputs[i].token);
      assert outs.outputs[i] in outs.outputs;
    }
    if x :| x in outs.outputs && x.at == o && outs.MetadataFor(x.token).Some? {
      DescribedIff(outs, outs.metadata, x.token);
      var i :| 0 <= i < |outs.outputs| && outs.outputs[i] == x;
      assert outs.outputs[i].at == o && Described(outs, outs.outputs[i].token);
    }
  }

  // ----- update_token_outputs --------------------------------------------------------------------------

  function MarkAt(t: TokenTables, o: Outpoint): Option<Time> { if o in t.spent then Some(t.spent[o]) else None }

  function MetadataAt(t: TokenTables, m: string): Option<Metadata>
  {
    if m in t.metadata then Some(t.metadata[m]) else None
  }

  lemma {:induction false} RemoveSpentAt(t: TokenTables, remove: seq<Outpoint>, at: Outpoint -> Time, o: Outpoint)
    ensures var t' := RemoveSpent(t, remove, at);
      && RowAt(t', o) == (if o in remove then None else RowAt(t, o))
      && MarkAt(t', o) == (if o in remove && o in t.outputs && o !in t.spent then Some(at(o)) else MarkAt(t, o))
      && t'.metadata == t.metadata && t'.reservations == t.reservations && t'.lastSwap == t.lastSwap
    decreases remove
  {
    if remove != [] {
      var p := remove[0];
      RemoveSpentAt(if p in t.outputs then MarkSpent(DeleteOutputs(t, {p}), {p}, at(p)) else t, remove[1..], at, o);
    }
  }

  lemma {:induction false} UpsertAllMetadataAt(t: TokenTables, outs: TokenOutputs, xs: seq<TokenOutput>, m: string)
    ensures var t' := UpsertAllMetadata(t, outs, xs);
      && MetadataAt(t', m) == (if outs.MetadataFor(m).Some? && exists x :: x in xs && x.token == m
           then outs.MetadataFor(m) else MetadataAt(t, m))
      && t'.outputs == t.outputs && t'.spent == t.spent && t'.reservations == t.reservations
      && t'.lastSwap == t.lastSwap
    decreases xs
  {
    if xs != [] {
      var found := outs.MetadataFor(xs[0].token);
      UpsertAllMetadataAt(if found.Some? then UpsertMetadata(t, found.value) else t, outs, xs[1..], m);
      var rest := xs[1..];
      assert (exists x :: x in xs && x.token == m) <==> xs[0].token == m || exists x :: x in rest && x.token == m by {
        assert xs == [xs[0]] + xs[1..];
      }
    }
  }

  lemma {:induction false} InsertAllAt(t: TokenTables, outs: TokenOutputs, xs: seq<TokenOutput>, at: Outpoint -> Time,
                                       o: Outpoint)
    ensures var t' := InsertAll(t, Insertable(outs, xs), at);
      && RowAt(t', o) == (if o in t.outputs then Some(t.outputs[o])
           else if FirstReport(outs, xs, o).Some? then Some(OutputRow(FirstReport(outs, xs, o).value, None, at(o)))
           else None)
      && t'.spent == t.spent && t'.metadata == t.metadata && t'.reservations == t.reservations
      && t'.lastSwap == t.lastSwap
    decreases xs
  {
    if xs != [] {
      InsertAllAt(if outs.MetadataFor(xs[0].token).Some? then InsertOutput(t, xs[0], at(xs[0].at)) else t, outs,
        xs[1..], at, o);
    }
  }

  /** The tables of an update, statement by statement. */
  lemma UpdateAt(t: TokenTables, op: TokenOp, t1: TokenTables, t2: TokenTables, t3: TokenTables, o: Outpoint, m: string)
    requires op.UpdateOutputs? && t1 == RemoveSpent(t, op.remove, op.removedAt)
    requires t2 == UpsertAllMetadata(t1, op.add, op.add.outputs)
    requires t3 == Unmark(t2, Outpoints(Insertable(op.add, op.add.outputs)))
    ensures var t', report := InsertAll(t3, Insertable(op.add, op.add.outputs), op.at),
        FirstReport(op.add, op.add.outputs, o);
      && RowAt(t', o) == (if o in t.outputs && o !in op.remove then Some(t.outputs[o])
           else if report.Some? then Some(OutputRow(report.value, None, op.at(o))) else None)
      && MarkAt(t', o) == (if report.Some? then None
           else if o in op.remove && o in t.outputs && o !in t.spent then Some(op.removedAt(o)) else MarkAt(t, o))
      && MetadataAt(t', m) == (if op.add.MetadataFor(m).Some? && exists x :: x in op.add.outputs && x.token == m
           then op.add.MetadataFor(m) else MetadataAt(t, m))
      && t'.reservations == t.reservations && t'.lastSwap == t.lastSwap
  {
    var back := Insertable(op.add, op.add.outputs);
    RemoveSpentAt(t, op.remove, op.removedAt, o);
    UpsertAllMetadataAt(t1, op.add, op.add.outputs, m);
    InsertAllAt(t3, op.add, op.add.outputs, op.at, o);
    BackIff(op.add, o);
  }

  lemma BackIff(outs: TokenOutputs, o: Outpoint)
    ensures o in Outpoints(Insertable(outs, outs.outputs)) <==> FirstReport(outs, outs.outputs, o).Some?
  {
    InsertableFrom(outs, outs.outputs);
    FirstReportIff(outs, outs.outputs, o);
  }

  lemma UpdateRow(fk: bool, t: TokenTables, op: TokenOp, o: Outpoint, m: string)
    requires op.UpdateOutputs?
    ensures var t', report := Apply(fk, t, op), FirstReport(op.add, op.add.outputs, o);
      && RowAt(t', o) == (if o in t.outputs && o !in op.remove then Some(t.outputs[o])
           else if report.Some? then Some(OutputRow(report.value, None, op.at(o))) else None)
      && MarkAt(t', o) == (if report.Some? then None
           else if o in op.remove && o in t.outputs && o !in t.spent then Some(op.removedAt(o)) else MarkAt(t, o))
      && MetadataAt(t', m) == (if op.add.MetadataFor(m).Some? && exists x :: x in op.add.outputs && x.token == m
           then op.add.MetadataFor(m) else MetadataAt(t, m))
      && t'.reservations == t.reservations && t'.lastSwap == t.lastSwap
  {
    var t1 := RemoveSpent(t, op.remove, op.removedAt);
    var t2 := UpsertAllMetadata(t1, op.add, op.add.outputs);
    UpdateAt(t, op, t1, t2, Unmark(t2, Outpoints(Insertable(op.add, op.add.outputs))), o, m);
  }

  predicate Adds(outs: TokenOutputs, token: string) { exists x :: x in outs.outputs && x.token == token }

  /** An update keeps the rows it does not remove. Otherwise the first listed output of an outpoint
      is there, unreserved and without a marker, and an outpoint nothing is listed for has no row;
      the removed ones are marked, with an older marker's time kept. The metadata listed for an
      added token wins. Reservations stay. */
  lemma UpdateExactly(fk: bool, t: TokenTables, op: TokenOp)
    requires op.UpdateOutputs?
    ensures var t' := Apply(fk, t, op);
      && (forall o :: o in t.outputs && o !in op.remove ==> o in t'.outputs && t'.outputs[o] == t.outputs[o])
      && (forall i :: FirstListed(op.add, i) ==>
           var x := op.add.outputs[i];
           && x.at !in t'.spent
           && (x.at !in t.outputs || x.at in op.remove ==>
                x.at in t'.outputs && t'.outputs[x.at] == OutputRow(x, None, op.at(x.at))))
      && (forall o :: !Listed(op.add, o) && (o !in t.outputs || o in op.remove) ==> o !in t'.outputs)
      && (forall o :: !Listed(op.add, o) ==>
           MarkAt(t', o) == if o in op.remove && o in t.outputs && o !in t.spent then Some(op.removedAt(o))
             else MarkAt(t, o))
      && (forall j :: FirstDescribed(op.add, j) && Adds(op.add, op.add.metadata[j].identifier) ==>
           MetadataAt(t', op.add.metadata[j].identifier) == Some(op.add.metadata[j]))
      && t'.reservations == t.reservations && t'.lastSwap == t.lastSwap
  {
    var t' := Apply(fk, t, op);
    forall o ensures o in t.outputs && o !in op.remove ==> o in t'.outputs && t'.outputs[o] == t.outputs[o]
      ensures !Listed(op.add, o) && (o !in t.outputs || o in op.remove) ==> o !in t'.outputs
      ensures !Listed(op.add, o) ==>
        MarkAt(t', o) == if o in op.remove && o in t.outputs && o !in t.spent then Some(op.removedAt(o))
          else MarkAt(t, o)
    {
      UpdateRow(fk, t, op, o, "");
      ListedIff(op.add, o);
    }
    forall i | FirstListed(op.add, i)
      ensures var x := op.add.outputs[i];
        && x.at !in t'.spent
        && (x.at !in t.outputs || x.at in op.remove ==>
             x.at in t'.outputs && t'.outputs[x.at] == OutputRow(x, None, op.at(x.at)))
    {
      ReportIsFirst(op.add, op.add.outputs, i);
      UpdateRow(fk, t, op, op.add.outputs[i].at, "");
    }
    forall j | FirstDescribed(op.add, j) && Adds(op.add, op.add.metadata[j].identifier)
      ensures MetadataAt(t', op.add.metadata[j].identifier) == Some(op.add.metadata[j])
    {
      MetadataIsFirst(op.add.metadata, j);
      UpdateRow(fk, t, op, Outpoint("", 0), op.add.metadata[j].identifier);
    }
    UpdateRow(fk, t, op, Outpoint("", 0), "");
  }

  /** The outpoints that get a new row of the token. */
  function NewRows(t: TokenTables, op: TokenOp, token: string): set<Outpoint>
    requires op.UpdateOutputs?
  {
    set x | x in op.add.outputs && (x.at !in t.outputs || x.at in op.remove)
      && FirstReport(op.add, op.add.outputs, x.at).Some?
      && FirstReport(op.add, op.add.outputs, x.at).value.token == token :: x.at
  }

  function AddedAmount(add: TokenOutputs): Outpoint -> int
  {
    (o: Outpoint) => if FirstReport(add, add.outputs, o).Some? then FirstReport(add, add.outputs, o).value.amount else 0
  }

  /** An update changes a token's balance by what it adds of the token less what was counted and it
      removes. */
  lemma UpdateShiftsBalance(fk: bool, t: TokenTables, op: TokenOp, token: string)
    requires op.UpdateOutputs?
    ensures var gone := set o | o in CountedFor(t, token) && o in op.remove;
      Balance(Apply(fk, t, op), token) == Balance(t, token) - Sum(gone, AmountColumn(t.outputs))
        + Sum(NewRows(t, op, token), AddedAmount(op.add))
  {
    var t', come := Apply(fk, t, op), NewRows(t, op, token);
    var counted := CountedFor(t, token);
    var gone := set o | o in counted && o in op.remove;
    forall o ensures o in CountedFor(t', token) <==> o in counted - gone || o in come
      ensures o in counted - gone ==> o !in come && AmountColumn(t'.outputs)(o) == AmountColumn(t.outputs)(o)
      ensures o in come ==> AmountColumn(t'.outputs)(o) == AddedAmount(op.add)(o)
    {
      CountedAfterUpdate(fk, t, op, token, o);
    }
    assert CountedFor(t', token) == (counted - gone) + come;
    SumSplit(counted, gone, AmountColumn(t.outputs));
    SumUnion(counted - gone, come, AmountColumn(t'.outputs));
    SumSame(counted - gone, AmountColumn(t'.outputs), AmountColumn(t.outputs));
    SumSame(come, AmountColumn(t'.outputs), AddedAmount(op.add));
  }

  lemma CountedAfterUpdate(fk: bool, t: TokenTables, op: TokenOp, token: string, o: Outpoint)
    requires op.UpdateOutputs?
    ensures var t', come, counted := Apply(fk, t, op), NewRows(t, op, token), CountedFor(t, token);
      && (o in CountedFor(t', token) <==> (o in counted && o !in op.remove) || o in come)
      && (o in counted && o !in op.remove ==>
           o !in come && AmountColumn(t'.outputs)(o) == AmountColumn(t.outputs)(o))
      && (o in come ==> AmountColumn(t'.outputs)(o) == AddedAmount(op.add)(o))
  {
    UpdateRow(fk, t, op, o, "");
    FirstReportIff(op.add, op.add.outputs, o);
    var report := FirstReport(op.add, op.add.outputs, o);
    assert o in NewRows(t, op, token)
      <==> ((o !in t.outputs || o in op.remove) && report.Some? && report.value.token == token);
  }

  // ----- claims ----------------------------------------------------------------------------------------

  /** A claim points exactly the outputs it names at a reservation of its purpose and time. */
  lemma ClaimExactly(fk: bool, t: TokenTables, op: TokenOp)
    requires op.Claim? && op.outpoints <= t.outputs.Keys
    ensures var t' := Apply(fk, t, op);
      && t'.outputs.Keys == t.outputs.Keys
      && (forall o :: o in op.outpoints ==> t'.outputs[o] == t.outputs[o].(reservation := Some(op.rid)))
      && (forall o :: o in t.outputs && o !in op.outpoints ==> t'.outputs[o] == t.outputs[o])
      && t'.reservations == t.reservations[op.rid := TokenReservation(op.purpose, op.now)]
      && t'.spent == t.spent && t'.lastSwap == t.lastSwap && t'.metadata == t.metadata
  {}

  /** Over every run that names it in no cancel or finalize and ends within five minutes of it, a
      claim is there and holds of its outputs exactly those that every refresh that proceeded
      reported and no update removed, as long as one is left. */
  lemma ClaimLasts(fk: bool, t: TokenTables, clock: Time, first: TokenEvent, es: seq<TokenEvent>)
    requires first.op.Claim? && ValidRun(fk, t, clock, Prepend(first, es))
    requires LeftByRun(fk, Apply(fk, t, first.op), es, first.op.outpoints) != {}
    requires forall e :: e in es ==> !Names(e.op, first.op.rid)
    requires EndOf(first.until, es) <= first.op.now + FIVE_MINUTES
    ensures var t1, t', rid := Apply(fk, t, first.op), Run(fk, t, Prepend(first, es)), first.op.rid;
      && rid in t'.reservations && t'.reservations[rid] == TokenReservation(first.op.purpose, first.op.now)
      && Held(t', rid) == LeftByRun(fk, t1, es, first.op.outpoints)
  {
    var t1 := Apply(fk, t, first.op);
    ClaimThenCancelRestores(t, first.op.rid, first.op.outpoints, first.op.purpose, first.op.now);
    assert Held(t1, first.op.rid) == first.op.outpoints;
    RunKeepsClaim(fk, t1, first.until, es, first.op.rid);
  }

  /** A cleanup whose clock readings are more than five minutes after the claim ends it: what it
      still held is free again. */
  lemma ClaimReleased(t: TokenTables, rid: Rid, releaseAt: Time, dropAt: Time)
    requires rid in t.reservations && t.reservations[rid].createdAt + FIVE_MINUTES < releaseAt <= dropAt
    ensures var c := CleanedUp(t, releaseAt, dropAt);
      && rid !in c.reservations && Held(c, rid) == {}
      && forall o :: o in Held(t, rid) ==>
           o in Available(c) && c.outputs[o] == t.outputs[o].(reservation := None)
  {}

  lemma ClaimExpires(fk: bool, t: TokenTables, clock: Time, first: TokenEvent, es: seq<TokenEvent>, releaseAt: Time,
                     dropAt: Time)
    requires first.op.Claim? && ValidRun(fk, t, clock, Prepend(first, es))
    requires LeftByRun(fk, Apply(fk, t, first.op), es, first.op.outpoints) != {}
    requires forall e :: e in es ==> !Names(e.op, first.op.rid)
    requires EndOf(first.until, es) <= first.op.now + FIVE_MINUTES < releaseAt <= dropAt
    ensures var c := CleanedUp(Run(fk, t, Prepend(first, es)), releaseAt, dropAt);
      && first.op.rid !in c.reservations
      && LeftByRun(fk, Apply(fk, t, first.op), es, first.op.outpoints) <= Available(c)
  {
    ClaimLasts(fk, t, clock, first, es);
    ClaimReleased(Run(fk, t, Prepend(first, es)), first.op.rid, releaseAt, dropAt);
  }

  /** Cancelling a claim frees exactly the outputs it holds and deletes the reservation. */
  lemma CancelExactly(fk: bool, t: TokenTables, op: TokenOp)
    requires op.CancelClaim?
    ensures var t' := Apply(fk, t, op);
      && t'.outputs.Keys == t.outputs.Keys
      && (forall o :: o in t.outputs ==>
           t'.outputs[o]
           == if t.outputs[o].reservation == Some(op.rid) then t.outputs[o].(reservation := None) else t.outputs[o])
      && t'.reservations == t.reservations - {op.rid}
      && t'.spent == t.spent && t'.lastSwap == t.lastSwap && t'.metadata == t.metadata
  {}

  /** Some row of the token is not of this reservation. */
  predicate HeldElsewhere(t: TokenTables, rid: Rid, token: string)
  {
    exists o :: o in t.outputs && t.outputs[o].reservation != Some(rid) && t.outputs[o].output.token == token
  }

  /** Finalizing a claim that is there removes exactly the outputs it holds and marks them spent,
      with an older marker's time kept, records a swap's completion, and keeps the metadata of the
      tokens still held. Finalizing one that is not there changes nothing. */
  lemma FinalizeExactly(fk: bool, t: TokenTables, op: TokenOp)
    requires op.FinalizeClaim?
    ensures var t' := Apply(fk, t, op);
      if op.rid !in t.reservations then t' == t else
      && (forall o :: RowAt(t', o)
           == if o in t.outputs && t.outputs[o].reservation != Some(op.rid) then Some(t.outputs[o]) else None)
      && (forall o :: MarkAt(t', o)
           == if o !in t.spent && o in t.outputs && t.outputs[o].reservation == Some(op.rid) then Some(op.spentAt)
              else MarkAt(t, o))
      && (forall m :: MetadataAt(t', m) == if HeldElsewhere(t, op.rid, m) then MetadataAt(t, m) else None)
      && t'.reservations == t.reservations - {op.rid}
      && t'.lastSwap == if t.reservations[op.rid].purpose == TreeTables.Swap then Some(op.swapAt) else t.lastSwap
  {
    if op.rid in t.reservations {
      var t' := Apply(fk, t, op);
      forall m ensures MetadataAt(t', m) == if HeldElsewhere(t, op.rid, m) then MetadataAt(t, m) else None {
        FinalizeMetadata(t, op.rid, op.spentAt, op.swapAt, m);
      }
      forall o ensures RowAt(t', o)
        == if o in t.outputs && t.outputs[o].reservation != Some(op.rid) then Some(t.outputs[o]) else None
      {
      }
    }
  }

  lemma FinalizeMetadata(t: TokenTables, rid: Rid, spentAt: Time, swapAt: Time, m: string)
    requires rid in t.reservations
    ensures MetadataAt(Finalized(t, rid, spentAt, swapAt), m)
      == if HeldElsewhere(t, rid, m) then MetadataAt(t, m) else None
  {
    var t1 := DeleteReservations(DeleteOutputs(MarkSpent(t, Held(t, rid), spentAt), Held(t, rid)), {rid});
    assert m in TokensHeld(t1) <==> exists o :: o in t1.outputs && t1.outputs[o].output.token == m;
    forall o ensures o in t1.outputs <==> o in t.outputs && t.outputs[o].reservation != Some(rid)
      ensures o in t1.outputs ==> t1.outputs[o] == t.outputs[o] {
    }
  }

  // ----- set_tokens_outputs ----------------------------------------------------------------------------

  /** Some output is held by a reservation that passes five minutes between the two readings. */
  predicate TimesOutBetween(t: TokenTables, releaseAt: Time, dropAt: Time)
  {
    exists o :: o in t.outputs && t.outputs[o].reservation.Some? && t.outputs[o].reservation.value in t.reservations
      && releaseAt <= t.reservations[t.outputs[o].reservation.value].createdAt + FIVE_MINUTES < dropAt
  }

  /** A swap reservation at most five minutes old. */
  predicate YoungSwap(t: TokenTables, now: Time)
  {
    exists r :: r in t.reservations && t.reservations[r].purpose == TreeTables.Swap
      && t.reservations[r].createdAt + FIVE_MINUTES >= now
  }

  /** A refresh changes nothing when foreign keys see a reservation time out between the cleanup's
      two statements, or a swap is young or completed since the refresh began; otherwise it
      proceeds. */
  lemma SetOutputsOutcome(fk: bool, t: TokenTables, op: TokenOp)
    requires op.SetOutputs? && NoDangling(t) && op.releaseAt <= op.dropAt
    ensures Apply(fk, t, op) ==
      if (fk && TimesOutBetween(t, op.releaseAt, op.dropAt)) || YoungSwap(t, op.dropAt)
         || (t.lastSwap.Some? && t.lastSwap.value >= op.start)
      then t else Refreshed(CleanedUp(t, op.releaseAt, op.dropAt), op.outs, op.start, op.at)
  {
    CleanupDanglesIffTimeoutBetween(t, op.releaseAt, op.dropAt);
    BetweenIff(t, op.releaseAt, op.dropAt);
    YoungSwapIff(t, CleanedUp(t, op.releaseAt, op.dropAt), op.releaseAt, op.dropAt, op.start);
  }

  lemma YoungSwapIff(t: TokenTables, c: TokenTables, releaseAt: Time, dropAt: Time, start: Time)
    requires c == CleanedUp(t, releaseAt, dropAt)
    ensures Blocked(c, start) <==> YoungSwap(t, dropAt) || (t.lastSwap.Some? && t.lastSwap.value >= start)
  {
    if YoungSwap(t, dropAt) {
      var r :| r in t.reservations && t.reservations[r].purpose == TreeTables.Swap
            && t.reservations[r].createdAt + FIVE_MINUTES >= dropAt;
      assert r in c.reservations;
    }
  }

  lemma BetweenIff(t: TokenTables, releaseAt: Time, dropAt: Time)
    requires NoDangling(t)
    ensures NoneBetween(t, releaseAt, dropAt) <==> !TimesOutBetween(t, releaseAt, dropAt)
  {
    if !NoneBetween(t, releaseAt, dropAt) {
      var r :| r in t.reservations && Held(t, r) != {} && TimedOut(t.reservations[r], dropAt)
        && !TimedOut(t.reservations[r], releaseAt);
      var o :| o in Held(t, r);
      assert t.outputs[o].reservation.value == r;
    }
    if TimesOutBetween(t, releaseAt, dropAt) {
      var o :| o in t.outputs && t.outputs[o].reservation.Some? && t.outputs[o].reservation.value in t.reservations
            && releaseAt <= t.reservations[t.outputs[o].reservation.value].createdAt + FIVE_MINUTES < dropAt;
      assert o in Held(t, t.outputs[o].reservation.value);
    }
  }

  /** The cleanup frees what reservations more than five minutes old hold, and deletes those. */
  lemma CleanupExactly(t: TokenTables, releaseAt: Time, dropAt: Time)
    ensures var c := CleanedUp(t, releaseAt, dropAt);
      && c.outputs.Keys == t.outputs.Keys
      && (forall o :: o in t.outputs ==>
           var row := t.outputs[o];
           var stale := row.reservation.Some? && row.reservation.value in t.reservations
             && t.reservations[row.reservation.value].createdAt + FIVE_MINUTES < releaseAt;
           c.outputs[o] == if stale then row.(reservation := None) else row)
      && (forall r :: if r in t.reservations && t.reservations[r].createdAt + FIVE_MINUTES >= dropAt
           then r in c.reservations && c.reservations[r] == t.reservations[r] else r !in c.reservations)
      && c.spent == t.spent && c.lastSwap == t.lastSwap && c.metadata == t.metadata
  {}

  predicate MarkedSince(t: TokenTables, o: Outpoint, start: Time) { o in t.spent && t.spent[o] >= start }

  predicate KeptRow(c: TokenTables, outs: TokenOutputs, start: Time, o: Outpoint)
  {
    o in c.outputs &&
    var r := c.outputs[o].reservation;
    if r.None? then c.outputs[o].addedAt >= start
    else r.value !in c.reservations || exists i :: 0 <= i < |outs.outputs| && outs.outputs[i].at == o
  }

  /** A refresh that proceeds keeps the reserved rows it reports, or whose reservation is gone, and
      the unreserved ones added since it began; it stores, unreserved, the first listed output of
      every other outpoint not marked since it began; every other row goes. Markers more than five
      minutes older than its start go. */
  lemma RefreshedStores(c: TokenTables, outs: TokenOutputs, start: Time, at: Outpoint -> Time)
    ensures var t' := Refreshed(c, outs, start, at);
      && (forall o :: KeptRow(c, outs, start, o) ==> o in t'.outputs && t'.outputs[o] == c.outputs[o])
      && (forall i :: FirstListed(outs, i) ==>
           var x := outs.outputs[i];
           !KeptRow(c, outs, start, x.at) && !MarkedSince(c, x.at, start) ==>
             x.at in t'.outputs && t'.outputs[x.at] == OutputRow(x, None, at(x.at)))
      && (forall o :: !KeptRow(c, outs, start, o) && (!Listed(outs, o) || MarkedSince(c, o, start)) ==>
           o !in t'.outputs)
      && (forall o :: MarkAt(t', o)
           == if o in c.spent && c.spent[o] + FIVE_MINUTES >= start then Some(c.spent[o]) else None)
  {
    var t' := Refreshed(c, outs, start, at);
    forall o ensures KeptRow(c, outs, start, o) ==> o in t'.outputs && t'.outputs[o] == c.outputs[o]
      ensures !KeptRow(c, outs, start, o) && (!Listed(outs, o) || MarkedSince(c, o, start)) ==> o !in t'.outputs
    {
      RefreshRow(c, outs, start, at, o);
      KeptIff(c, outs, start, o);
      ListedIff(outs, o);
    }
    forall i | FirstListed(outs, i)
      ensures var x := outs.outputs[i];
        !KeptRow(c, outs, start, x.at) && !MarkedSince(c, x.at, start) ==>
          x.at in t'.outputs && t'.outputs[x.at] == OutputRow(x, None, at(x.at))
    {
      ReportIsFirst(outs, outs.outputs, i);
      RefreshRow(c, outs, start, at, outs.outputs[i].at);
      KeptIff(c, outs, start, outs.outputs[i].at);
    }
    RefreshReservation(c, outs, start, at, "");
  }

  lemma KeptIff(c: TokenTables, outs: TokenOutputs, start: Time, o: Outpoint)
    ensures KeptRow(c, outs, start, o) <==> (o in c.outputs && Stays(c, o, start, Outpoints(outs.outputs)))
  {
    if o in Outpoints(outs.outputs) {
      var x :| x in outs.outputs && x.at == o;
      var i :| 0 <= i < |outs.outputs| && outs.outputs[i] == x;
      assert outs.outputs[i].at == o;
    }
    if i :| 0 <= i < |outs.outputs| && outs.outputs[i].at == o {
      assert outs.outputs[i] in outs.outputs;
    }
  }
}

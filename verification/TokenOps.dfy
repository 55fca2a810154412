/** The token store's operations as steps, what every run of them keeps, and the two ways of
    computing a token's balance. */
module TokenOps {
  import opened Base
  import opened TokenSelection
  import opened TokenTables
  import TreeTables

  datatype TokenOp =
    | SetOutputs(outs: TokenOutputs, start: Time, releaseAt: Time, dropAt: Time, at: Outpoint -> Time)
    | Claim(rid: Rid, outpoints: set<Outpoint>, purpose: Purpose, now: Time)
    | CancelClaim(rid: Rid)
    | FinalizeClaim(rid: Rid, spentAt: Time, swapAt: Time)
    | UpdateOutputs(remove: seq<Outpoint>, add: TokenOutputs, removedAt: Outpoint -> Time, at: Outpoint -> Time)

  /** `claim_outputs`: a reservation and every given output pointed at it. */
  function Claimed(t: TokenTables, rid: Rid, outpoints: set<Outpoint>, purpose: Purpose, now: Time): TokenTables
  {
    t.(reservations := t.reservations[rid := TokenReservation(purpose, now)],
       outputs := map o | o in t.outputs ::
         if o in outpoints then t.outputs[o].(reservation := Some(rid)) else t.outputs[o])
  }

  function Released(t: TokenTables, rid: Rid): TokenTables
  {
    t.(outputs := map o | o in t.outputs ::
      if t.outputs[o].reservation == Some(rid) then t.outputs[o].(reservation := None) else t.outputs[o],
       reservations := t.reservations - {rid})
  }

  /** Markers already there keep their time. */
  function MarkSpent(t: TokenTables, gone: set<Outpoint>, at: Time): TokenTables
  {
    t.(spent := map o | o in t.spent.Keys + gone :: if o in t.spent then t.spent[o] else at)
  }

  /** A finalize of a reservation that is gone does nothing. */
  function Finalized(t: TokenTables, rid: Rid, spentAt: Time, swapAt: Time): TokenTables
  {
    if rid !in t.reservations then t
    else
      var t1 := DeleteReservations(DeleteOutputs(MarkSpent(t, Held(t, rid), spentAt), Held(t, rid)), {rid});
      DropOrphanMetadata(if t.reservations[rid].purpose == TreeTables.Swap then t1.(lastSwap := Some(swapAt)) else t1)
  }

  /** Removes outputs one by one; only those that were there are marked. */
  function RemoveSpent(t: TokenTables, remove: seq<Outpoint>, at: Outpoint -> Time): TokenTables
    decreases remove
  {
    if remove == [] then t
    else
      var o := remove[0];
      RemoveSpent(if o in t.outputs then MarkSpent(DeleteOutputs(t, {o}), {o}, at(o)) else t, remove[1..], at)
  }

  function UpsertAllMetadata(t: TokenTables, outs: TokenOutputs, xs: seq<TokenOutput>): TokenTables
    decreases xs
  {
    if xs == [] then t
    else
      var m := outs.MetadataFor(xs[0].token);
      UpsertAllMetadata(if m.Some? then UpsertMetadata(t, m.value) else t, outs, xs[1..])
  }

  function Insertable(outs: TokenOutputs, xs: seq<TokenOutput>): seq<TokenOutput>
  {
    if xs == [] then []
    else if outs.MetadataFor(xs[0].token).Some? then Prepend(xs[0], Insertable(outs, xs[1..]))
      else Insertable(outs, xs[1..])
  }

  function InsertAll(t: TokenTables, xs: seq<TokenOutput>, at: Outpoint -> Time): TokenTables
    decreases xs
  {
    if xs == [] then t else InsertAll(InsertOutput(t, xs[0], at(xs[0].at)), xs[1..], at)
  }

  function Unmark(t: TokenTables, back: set<Outpoint>): TokenTables { t.(spent := t.spent - back) }

  function Updated(t: TokenTables, remove: seq<Outpoint>, add: TokenOutputs, spentAt: Outpoint -> Time,
                   at: Outpoint -> Time): TokenTables
  {
    var back := Insertable(add, add.outputs);
    InsertAll(Unmark(UpsertAllMetadata(RemoveSpent(t, remove, spentAt), add, add.outputs), Outpoints(back)), back, at)
  }

  function Apply(fk: bool, t: TokenTables, op: TokenOp): TokenTables
  {
    match op
    case SetOutputs(outs, start, releaseAt, dropAt, at) => Refresh(fk, t, outs, start, releaseAt, dropAt, at)
    case Claim(rid, outpoints, purpose, now) => Claimed(t, rid, outpoints, purpose, now)
    case CancelClaim(rid) => Released(t, rid)
    case FinalizeClaim(rid, spentAt, swapAt) => Finalized(t, rid, spentAt, swapAt)
    case UpdateOutputs(remove, add, spentAt, at) => Updated(t, remove, add, spentAt, at)
  }

  /** A claim takes available outputs under a new id (a time-ordered UUID). */
  ghost predicate Enabled(t: TokenTables, op: TokenOp)
  {
    op.Claim? ==> op.rid !in t.reservations && Held(t, op.rid) == {} && op.outpoints <= Available(t)
  }

  ghost predicate TimesIn(op: TokenOp, from: Time, until: Time)
  {
    match op
    case SetOutputs(_, _, releaseAt, dropAt, at) =>
      from <= releaseAt <= dropAt <= until && forall o :: dropAt <= at(o) <= until
    case Claim(_, _, _, now) => from <= now <= until
    case CancelClaim(_) => true
    case FinalizeClaim(_, spentAt, swapAt) => from <= spentAt <= swapAt <= until
    case UpdateOutputs(_, _, removedAt, at) => forall o :: from <= removedAt(o) <= until && from <= at(o) <= until
  }

  ghost predicate NoneBetween(t: TokenTables, releaseAt: Time, dropAt: Time)
  {
    forall r :: r in t.reservations && Held(t, r) != {} && TimedOut(t.reservations[r], dropAt) ==>
      TimedOut(t.reservations[r], releaseAt)
  }

  /** Without foreign keys, no reservation that holds outputs times out between the two clock
      readings of a refresh's cleanup. */
  ghost predicate Linked(fk: bool, t: TokenTables, op: TokenOp)
  {
    fk || (op.SetOutputs? ==> NoneBetween(t, op.releaseAt, op.dropAt))
  }

  /** One operation, between two readings of a clock that never goes back. */
  datatype TokenEvent = TokenEvent(op: TokenOp, from: Time, until: Time)

  ghost function Run(fk: bool, t: TokenTables, es: seq<TokenEvent>): TokenTables
    decreases es
  {
    if es == [] then t else Run(fk, Apply(fk, t, es[0].op), es[1..])
  }

  ghost predicate ValidRun(fk: bool, t: TokenTables, clock: Time, es: seq<TokenEvent>)
    decreases es
  {
    es == [] ||
    (var e := es[0];
     && clock <= e.from <= e.until
     && TimesIn(e.op, e.from, e.until)
     && Enabled(t, e.op)
     && ValidRun(fk, Apply(fk, t, e.op), e.until, es[1..]))
  }

  ghost predicate LinkedRun(fk: bool, t: TokenTables, es: seq<TokenEvent>)
    decreases es
  {
    es == [] || (Linked(fk, t, es[0].op) && LinkedRun(fk, Apply(fk, t, es[0].op), es[1..]))
  }

  function EndOf(clock: Time, es: seq<TokenEvent>): Time
    decreases es
  {
    if es == [] then clock else EndOf(es[0].until, es[1..])
  }

  // ----- what every step keeps -------------------------------------------------------------------

  /** Rows sit under their own outpoint, and their token's metadata is there. */
  predicate RowOk(t: TokenTables, o: Outpoint)
    requires o in t.outputs
  {
    t.outputs[o].output.at == o && t.outputs[o].output.token in t.metadata
  }

  ghost predicate Inv(t: TokenTables)
  {
    NoDangling(t) && forall o :: o in t.outputs ==> RowOk(t, o)
  }

  /** The cleanup leaves no output naming a deleted reservation exactly when no holding
      reservation times out between its two clock readings. */
  lemma CleanupDanglesIffTimeoutBetween(t: TokenTables, releaseAt: Time, dropAt: Time)
    requires NoDangling(t) && releaseAt <= dropAt
    ensures NoDangling(CleanedUp(t, releaseAt, dropAt)) <==> NoneBetween(t, releaseAt, dropAt)
  {
    var c := CleanedUp(t, releaseAt, dropAt);
    if NoDangling(c) {
      forall r | r in t.reservations && Held(t, r) != {} && TimedOut(t.reservations[r], dropAt)
        ensures TimedOut(t.reservations[r], releaseAt)
      {
        var o :| o in Held(t, r);
        assert o in c.outputs;
      }
    } else {
      var o :| o in c.outputs && c.outputs[o].reservation.Some? && c.outputs[o].reservation.value !in c.reservations;
      assert o in Held(t, c.outputs[o].reservation.value);
    }
  }

  lemma RefreshedKeepsInv(c: TokenTables, outs: TokenOutputs, start: Time, at: Outpoint -> Time)
    requires Inv(c)
    ensures Inv(Refreshed(c, outs, start, at))
  {
    var t' := Refreshed(c, outs, start, at);
    RefreshExactly(c, outs, start, at);
    forall o | o in t'.outputs
      ensures RowOk(t', o) && (t'.outputs[o].reservation.Some? ==> t'.outputs[o].reservation.value in t'.reservations)
    {
      assert RowAt(t', o) == ExpectedRow(c, outs, start, at, o);
      RefreshMetadata(c, outs, start, at, t'.outputs[o].output.token);
      RefreshedRowOk(c, outs, start, at, o, t');
    }
  }

  lemma RefreshedRowOk(c: TokenTables, outs: TokenOutputs, start: Time, at: Outpoint -> Time, o: Outpoint,
                       t': TokenTables)
    requires Inv(c) && o in t'.outputs && RowAt(t', o) == ExpectedRow(c, outs, start, at, o)
    requires forall rid :: rid in t'.reservations <==>
      (rid in c.reservations && if Held(c, rid) == {} then Unreported(c, Outpoints(outs.outputs)) == {}
        else !(Held(c, rid) !! Outpoints(outs.outputs)))
    requires var m := t'.outputs[o].output.token;
      m in t'.metadata <==>
        (m in c.metadata && exists o ::
          o in c.outputs && Stays(c, o, start, Outpoints(outs.outputs)) && c.outputs[o].output.token == m)
        || m in TokensReported(outs, outs.outputs)
    ensures RowOk(t', o) && (t'.outputs[o].reservation.Some? ==> t'.outputs[o].reservation.value in t'.reservations)
  {
    if o in c.outputs && Stays(c, o, start, Outpoints(outs.outputs)) {
      assert RowOk(c, o);
      if c.outputs[o].reservation.Some? {
        assert o in Held(c, c.outputs[o].reservation.value);
      }
    } else {
      FirstReportStored(outs, outs.outputs, o);
    }
  }

  lemma {:induction false} FirstReportStored(outs: TokenOutputs, xs: seq<TokenOutput>, o: Outpoint)
    requires FirstReport(outs, xs, o).Some?
    ensures FirstReport(outs, xs, o).value.at == o && FirstReport(outs, xs, o).value.token in TokensReported(outs, xs)
    decreases xs
  {
    if xs[0].at == o && outs.MetadataFor(xs[0].token).Some? {
      assert xs[0] in xs;
    } else {
      FirstReportStored(outs, xs[1..], o);
      var x :| x in xs[1..] && outs.MetadataFor(x.token).Some? && x.token == FirstReport(outs, xs[1..], o).value.token;
      assert x in xs;
    }
  }

  lemma {:induction false} RemoveSpentKeepsInv(t: TokenTables, remove: seq<Outpoint>, at: Outpoint -> Time)
    requires Inv(t)
    ensures Inv(RemoveSpent(t, remove, at))
    decreases remove
  {
    if remove != [] {
      var o := remove[0];
      var t1 := if o in t.outputs then MarkSpent(DeleteOutputs(t, {o}), {o}, at(o)) else t;
      forall p | p in t1.outputs ensures RowOk(t1, p) {
        assert RowOk(t, p);
      }
      RemoveSpentKeepsInv(t1, remove[1..], at);
    }
  }

  lemma {:induction false} UpsertAllMetadataKeepsInv(t: TokenTables, outs: TokenOutputs, xs: seq<TokenOutput>)
    requires Inv(t)
    ensures Inv(UpsertAllMetadata(t, outs, xs))
    ensures forall x :: x in xs && outs.MetadataFor(x.token).Some? ==>
      x.token in UpsertAllMetadata(t, outs, xs).metadata
    ensures t.metadata.Keys <= UpsertAllMetadata(t, outs, xs).metadata.Keys
    decreases xs
  {
    if xs != [] {
      var m := outs.MetadataFor(xs[0].token);
      var t1 := if m.Some? then UpsertMetadata(t, m.value) else t;
      forall p | p in t1.outputs ensures RowOk(t1, p) {
        assert RowOk(t, p);
      }
      UpsertAllMetadataKeepsInv(t1, outs, xs[1..]);
      assert xs == [xs[0]] + xs[1..];
    }
  }

  lemma {:induction false} InsertAllKeepsInv(t: TokenTables, xs: seq<TokenOutput>, at: Outpoint -> Time)
    requires Inv(t) && forall x :: x in xs ==> x.token in t.metadata
    ensures Inv(InsertAll(t, xs, at))
    decreases xs
  {
    if xs != [] {
      assert xs[0] in xs;
      var t1 := InsertOutput(t, xs[0], at(xs[0].at));
      forall p | p in t1.outputs ensures RowOk(t1, p) {
        assert p != xs[0].at ==> RowOk(t, p);
        assert p in t.outputs ==> RowOk(t, p);
      }
      InsertAllKeepsInv(t1, xs[1..], at);
    }
  }

  lemma {:induction false} InsertableFrom(outs: TokenOutputs, xs: seq<TokenOutput>)
    ensures forall x :: x in Insertable(outs, xs) <==> x in xs && outs.MetadataFor(x.token).Some?
    decreases xs
  {
    if xs != [] {
      InsertableFrom(outs, xs[1..]);
      assert xs == [xs[0]] + xs[1..];
      if outs.MetadataFor(xs[0].token).Some? {
        PrependMembers(xs[0], Insertable(outs, xs[1..]));
      }
    }
  }

  lemma UpdatedKeepsInv(t: TokenTables, remove: seq<Outpoint>, add: TokenOutputs, spentAt: Outpoint -> Time,
                        at: Outpoint -> Time)
    requires Inv(t)
    ensures Inv(Updated(t, remove, add, spentAt, at))
  {
    var back := Insertable(add, add.outputs);
    var t1 := RemoveSpent(t, remove, spentAt);
    RemoveSpentKeepsInv(t, remove, spentAt);
    UpsertAllMetadataKeepsInv(t1, add, add.outputs);
    var t2 := UpsertAllMetadata(t1, add, add.outputs);
    InsertableFrom(add, add.outputs);
    var t3 := Unmark(t2, Outpoints(back));
    forall p | p in t3.outputs ensures RowOk(t3, p) {
      assert RowOk(t2, p);
    }
    InsertAllKeepsInv(t3, back, at);
  }

  lemma FinalizedKeepsInv(t: TokenTables, rid: Rid, spentAt: Time, swapAt: Time)
    requires Inv(t)
    ensures Inv(Finalized(t, rid, spentAt, swapAt))
  {
    var t' := Finalized(t, rid, spentAt, swapAt);
    forall o | o in t'.outputs ensures RowOk(t', o) {
      assert RowOk(t, o);
    }
  }

  lemma SetOutputsKeepsInv(fk: bool, t: TokenTables, op: TokenOp)
    requires op.SetOutputs? && Inv(t) && Linked(fk, t, op) && op.releaseAt <= op.dropAt
    ensures Inv(Apply(fk, t, op))
  {
    if OutcomeOf(fk, t, op.start, op.releaseAt, op.dropAt).Proceeded? {
      var c := CleanedUp(t, op.releaseAt, op.dropAt);
      CleanupDanglesIffTimeoutBetween(t, op.releaseAt, op.dropAt);
      forall o | o in c.outputs ensures RowOk(c, o) {
        assert RowOk(t, o);
      }
      RefreshedKeepsInv(c, op.outs, op.start, op.at);
    }
  }

  lemma StepKeepsInv(fk: bool, t: TokenTables, op: TokenOp, from: Time, until: Time)
    requires Inv(t) && TimesIn(op, from, until) && Enabled(t, op) && Linked(fk, t, op)
    ensures Inv(Apply(fk, t, op))
  {
    match op {
      case SetOutputs(_, _, _, _, _) => SetOutputsKeepsInv(fk, t, op);
      case UpdateOutputs(remove, add, spentAt, at) => UpdatedKeepsInv(t, remove, add, spentAt, at);
      case FinalizeClaim(rid, spentAt, swapAt) => FinalizedKeepsInv(t, rid, spentAt, swapAt);
      case Claim(_, _, _, _) =>
        forall o | o in Apply(fk, t, op).outputs ensures RowOk(Apply(fk, t, op), o) {
          assert RowOk(t, o);
        }
      case CancelClaim(_) =>
        forall o | o in Apply(fk, t, op).outputs ensures RowOk(Apply(fk, t, op), o) {
          assert RowOk(t, o);
        }
    }
  }

  lemma {:induction false} RunKeepsInv(fk: bool, t: TokenTables, clock: Time, es: seq<TokenEvent>)
    requires Inv(t) && ValidRun(fk, t, clock, es) && LinkedRun(fk, t, es)
    ensures Inv(Run(fk, t, es))
    decreases es
  {
    if es != [] {
      var e := es[0];
      StepKeepsInv(fk, t, e.op, e.from, e.until);
      RunKeepsInv(fk, Apply(fk, t, e.op), e.until, es[1..]);
    }
  }

  // ----- balances ----------------------------------------------------------------------------------

  function PurposeOf(t: TokenTables, o: Outpoint): Option<Purpose>
    requires o in t.outputs
  {
    var r := t.outputs[o].reservation;
    if r.Some? && r.value in t.reservations then Some(t.reservations[r.value].purpose) else None
  }

  function AmountColumn(outputs: map<Outpoint, OutputRow>): Outpoint -> int
  {
    (o: Outpoint) => if o in outputs then outputs[o].output.amount else 0
  }

  function OfToken(t: TokenTables, token: string): set<Outpoint>
  {
    set o | o in t.outputs && t.outputs[o].output.token == token
  }

  /** The rows `get_token_balances` sums for a token. */
  function CountedFor(t: TokenTables, token: string): set<Outpoint>
  {
    set o | o in OfToken(t, token) && (t.outputs[o].reservation.None? || PurposeOf(t, o) == Some(TreeTables.Swap))
  }

  ghost function Balance(t: TokenTables, token: string): int
  {
    Sum(CountedFor(t, token), AmountColumn(t.outputs))
  }

  /** The outputs `list_tokens_outputs` puts under available and under reserved for a swap. */
  function ListedAvailable(t: TokenTables, token: string): set<Outpoint>
  {
    set o | o in OfToken(t, token) && PurposeOf(t, o).None?
  }

  function ListedSwap(t: TokenTables, token: string): set<Outpoint>
  {
    set o | o in OfToken(t, token) && PurposeOf(t, o) == Some(TreeTables.Swap)
  }

  ghost function ListBalance(t: TokenTables, token: string): int
  {
    Sum(ListedAvailable(t, token), AmountColumn(t.outputs)) + Sum(ListedSwap(t, token), AmountColumn(t.outputs))
  }

  function DanglingOf(t: TokenTables, token: string): set<Outpoint>
  {
    set o | o in OfToken(t, token) && t.outputs[o].reservation.Some? && PurposeOf(t, o).None?
  }

  /** The two balances of a token agree exactly when its outputs that name a missing reservation
      are worth nothing. */
  lemma BalancesAgreeIff(t: TokenTables, token: string)
    ensures Balance(t, token) == ListBalance(t, token) <==>
      forall o :: o in DanglingOf(t, token) ==> t.outputs[o].output.amount == 0
  {
    var f, d := AmountColumn(t.outputs), DanglingOf(t, token);
    var counted, a, s := CountedFor(t, token), ListedAvailable(t, token), ListedSwap(t, token);
    SumUnion(a, s, f);
    SumUnion(counted, d, f);
    assert a + s == counted + d;
    if o :| o in d && t.outputs[o].output.amount != 0 {
      SumRemove(d, f, o);
      SumNonNegative(d - {o}, f);
    } else {
      SumSame(d, f, (o: Outpoint) => 0);
      SumOfZero(d);
    }
  }

  lemma {:induction false} SumOfZero(s: set<Outpoint>)
    ensures Sum(s, (o: Outpoint) => 0) == 0
    decreases s
  {
    if s != {} {
      var o :| o in s;
      SumRemove(s, (o: Outpoint) => 0, o);
      SumOfZero(s - {o});
      SumSame(s - {o}, (o: Outpoint) => 0, (p: Outpoint) => 0);
    }
  }

  /** In every reachable state each token's aggregate balance equals its lists'. */
  lemma ReachableBalancesAgree(fk: bool, t: TokenTables, clock: Time, es: seq<TokenEvent>, token: string)
    requires Inv(t) && ValidRun(fk, t, clock, es) && LinkedRun(fk, t, es)
    ensures Balance(Run(fk, t, es), token) == ListBalance(Run(fk, t, es), token)
  {
    RunKeepsInv(fk, t, clock, es);
    BalancesAgreeIff(Run(fk, t, es), token);
  }

  // ----- claims ------------------------------------------------------------------------------------

  /** A claim leaves what other reservations hold, and cancelling it restores the tables. */
  lemma ClaimThenCancelRestores(t: TokenTables, rid: Rid, outpoints: set<Outpoint>, purpose: Purpose, now: Time)
    requires rid !in t.reservations && Held(t, rid) == {} && outpoints <= Available(t)
    ensures Released(Claimed(t, rid, outpoints, purpose, now), rid) == t
    ensures Held(Claimed(t, rid, outpoints, purpose, now), rid) == outpoints
    ensures forall other :: other != rid ==> Held(Claimed(t, rid, outpoints, purpose, now), other) == Held(t, other)
  {
    var t1 := Claimed(t, rid, outpoints, purpose, now);
    forall o | o in t.outputs ensures o in outpoints || t.outputs[o].reservation != Some(rid) {
      assert o !in Held(t, rid);
    }
    assert Released(t1, rid).outputs == t.outputs;
    assert Released(t1, rid).reservations == t.reservations;
    forall other | other != rid ensures Held(t1, other) == Held(t, other) {
    }
  }

  // ----- spent outputs -----------------------------------------------------------------------------

  predicate SpentAndOut(t: TokenTables, o: Outpoint, s: Time) { o !in t.outputs && o in t.spent && t.spent[o] == s }

  /** The step neither adds the output by name nor refreshes too late to know of the spend. */
  predicate LeavesOut(op: TokenOp, o: Outpoint, s: Time)
  {
    match op
    case SetOutputs(outs, start, _, _, _) =>
      start <= s || (start <= s + TreeTables.SPENT_MARKER_CLEANUP_THRESHOLD && FirstReport(outs, outs.outputs, o).None?)
    case UpdateOutputs(_, add, _, _) => o !in Outpoints(Insertable(add, add.outputs))
    case _ => true
  }

  lemma {:induction false} RemoveKeepsSpentOut(t: TokenTables, remove: seq<Outpoint>, at: Outpoint -> Time, o: Outpoint,
                                               s: Time)
    requires SpentAndOut(t, o, s)
    ensures SpentAndOut(RemoveSpent(t, remove, at), o, s)
    decreases remove
  {
    if remove != [] {
      var p := remove[0];
      RemoveKeepsSpentOut(if p in t.outputs then MarkSpent(DeleteOutputs(t, {p}), {p}, at(p))
        else t, remove[1..], at, o, s);
    }
  }

  lemma {:induction false} MetadataKeepsSpentOut(t: TokenTables, outs: TokenOutputs, xs: seq<TokenOutput>, o: Outpoint,
                                                 s: Time)
    requires SpentAndOut(t, o, s)
    ensures SpentAndOut(UpsertAllMetadata(t, outs, xs), o, s)
    decreases xs
  {
    if xs != [] {
      var m := outs.MetadataFor(xs[0].token);
      MetadataKeepsSpentOut(if m.Some? then UpsertMetadata(t, m.value) else t, outs, xs[1..], o, s);
    }
  }

  lemma {:induction false} InsertKeepsSpentOut(t: TokenTables, xs: seq<TokenOutput>, at: Outpoint -> Time, o: Outpoint,
                                               s: Time)
    requires SpentAndOut(t, o, s) && o !in Outpoints(xs)
    ensures SpentAndOut(InsertAll(t, xs, at), o, s)
    decreases xs
  {
    if xs != [] {
      assert xs[0] in xs && forall x :: x in xs[1..] ==> x in xs;
      InsertKeepsSpentOut(InsertOutput(t, xs[0], at(xs[0].at)), xs[1..], at, o, s);
    }
  }

  lemma UpdateKeepsSpentOut(t: TokenTables, op: TokenOp, o: Outpoint, s: Time)
    requires op.UpdateOutputs? && SpentAndOut(t, o, s) && LeavesOut(op, o, s)
    ensures SpentAndOut(Updated(t, op.remove, op.add, op.removedAt, op.at), o, s)
  {
    var back, t1 := Insertable(op.add, op.add.outputs), RemoveSpent(t, op.remove, op.removedAt);
    RemoveKeepsSpentOut(t, op.remove, op.removedAt, o, s);
    MetadataKeepsSpentOut(t1, op.add, op.add.outputs, o, s);
    InsertKeepsSpentOut(Unmark(UpsertAllMetadata(t1, op.add, op.add.outputs), Outpoints(back)), back, op.at, o, s);
  }

  /** For one refresh the condition is exact: a spent output comes back when and only when a
      refresh that began after the spend proceeds and reports it with metadata. */
  lemma SpentComesBackIff(fk: bool, t: TokenTables, op: TokenOp, o: Outpoint, s: Time)
    requires op.SetOutputs? && SpentAndOut(t, o, s)
    ensures o in Apply(fk, t, op).outputs <==>
      OutcomeOf(fk, t, op.start, op.releaseAt, op.dropAt).Proceeded? && op.start > s
        && FirstReport(op.outs, op.outs.outputs, o).Some?
    ensures o !in Apply(fk, t, op).outputs && op.start <= s + TreeTables.SPENT_MARKER_CLEANUP_THRESHOLD ==>
      SpentAndOut(Apply(fk, t, op), o, s)
  {
    if OutcomeOf(fk, t, op.start, op.releaseAt, op.dropAt).Proceeded? {
      var c := CleanedUp(t, op.releaseAt, op.dropAt);
      RefreshRow(c, op.outs, op.start, op.at, o);
      RefreshReservation(c, op.outs, op.start, op.at, "");
      assert o in RecentlySpent(c, op.start) <==> s >= op.start;
    }
  }

  lemma StepKeepsSpentOut(fk: bool, t: TokenTables, op: TokenOp, o: Outpoint, s: Time)
    requires SpentAndOut(t, o, s) && LeavesOut(op, o, s)
    ensures SpentAndOut(Apply(fk, t, op), o, s)
  {
    match op {
      case SetOutputs(_, _, _, _, _) => SpentComesBackIff(fk, t, op, o, s);
      case UpdateOutputs(_, _, _, _) => UpdateKeepsSpentOut(t, op, o, s);
      case Claim(_, _, _, _) =>
      case CancelClaim(_) =>
      case FinalizeClaim(_, _, _) =>
    }
  }

  lemma {:induction false} RunKeepsSpentOut(fk: bool, t: TokenTables, es: seq<TokenEvent>, o: Outpoint, s: Time)
    requires SpentAndOut(t, o, s) && forall e :: e in es ==> LeavesOut(e.op, o, s)
    ensures SpentAndOut(Run(fk, t, es), o, s)
    decreases es
  {
    if es != [] {
      StepKeepsSpentOut(fk, t, es[0].op, o, s);
      RunKeepsSpentOut(fk, Apply(fk, t, es[0].op), es[1..], o, s);
    }
  }

  /** The operation spends an output: it finalizes the reservation that holds it, or removes it by
      name, and does not add it again. */
  predicate Spends(t: TokenTables, op: TokenOp, o: Outpoint)
  {
    match op
    case FinalizeClaim(rid, _, _) => rid in t.reservations && o in Held(t, rid)
    case UpdateOutputs(remove, add, _, _) => o in remove && o in t.outputs
      && o !in Outpoints(Insertable(add, add.outputs))
    case _ => false
  }

  function SpendTime(op: TokenOp, o: Outpoint): Time
    requires op.FinalizeClaim? || op.UpdateOutputs?
  {
    if op.FinalizeClaim? then op.spentAt else op.removedAt(o)
  }

  lemma {:induction false} RemovedIsSpent(t: TokenTables, remove: seq<Outpoint>, at: Outpoint -> Time, o: Outpoint)
    requires o in remove && o in t.outputs && o !in t.spent
    ensures SpentAndOut(RemoveSpent(t, remove, at), o, at(o))
    decreases remove
  {
    var p := remove[0];
    var t1 := if p in t.outputs then MarkSpent(DeleteOutputs(t, {p}), {p}, at(p)) else t;
    if p == o {
      RemoveKeepsSpentOut(t1, remove[1..], at, o, at(o));
    } else {
      RemovedIsSpent(t1, remove[1..], at, o);
    }
  }

  lemma SpendingIsSpent(fk: bool, t: TokenTables, spend: TokenOp, o: Outpoint)
    requires Spends(t, spend, o) && o !in t.spent
    ensures SpentAndOut(Apply(fk, t, spend), o, SpendTime(spend, o))
  {
    if spend.UpdateOutputs? {
      var back, t1 := Insertable(spend.add, spend.add.outputs), RemoveSpent(t, spend.remove, spend.removedAt);
      var s := SpendTime(spend, o);
      RemovedIsSpent(t, spend.remove, spend.removedAt, o);
      MetadataKeepsSpentOut(t1, spend.add, spend.add.outputs, o, s);
      InsertKeepsSpentOut(Unmark(UpsertAllMetadata(t1, spend.add, spend.add.outputs), Outpoints(back)), back,
        spend.at, o, s);
    }
  }

  /** An output spent by a finalize, or removed by an update, with no earlier marker, stays out in
      every continuation that does not add it by name and whose refreshes began at or before the
      spend, or within five minutes after it without reporting it. */
  lemma SpentStaysOut(fk: bool, t: TokenTables, spend: TokenOp, o: Outpoint, es: seq<TokenEvent>)
    requires Spends(t, spend, o) && o !in t.spent
    requires forall e :: e in es ==> LeavesOut(e.op, o, SpendTime(spend, o))
    ensures o !in Run(fk, Apply(fk, t, spend), es).outputs
  {
    SpendingIsSpent(fk, t, spend, o);
    RunKeepsSpentOut(fk, Apply(fk, t, spend), es, o, SpendTime(spend, o));
  }

  // ----- swaps and older refreshes -----------------------------------------------------------------

  predicate SwapDone(t: TokenTables, s: Time) { t.lastSwap.Some? && t.lastSwap.value >= s }

  lemma {:induction false} RemoveKeepsSwap(t: TokenTables, remove: seq<Outpoint>, at: Outpoint -> Time)
    ensures RemoveSpent(t, remove, at).lastSwap == t.lastSwap
    decreases remove
  {
    if remove != [] {
      var p := remove[0];
      RemoveKeepsSwap(if p in t.outputs then MarkSpent(DeleteOutputs(t, {p}), {p}, at(p)) else t, remove[1..], at);
    }
  }

  lemma {:induction false} MetadataKeepsSwap(t: TokenTables, outs: TokenOutputs, xs: seq<TokenOutput>)
    ensures UpsertAllMetadata(t, outs, xs).lastSwap == t.lastSwap
    decreases xs
  {
    if xs != [] {
      var m := outs.MetadataFor(xs[0].token);
      MetadataKeepsSwap(if m.Some? then UpsertMetadata(t, m.value) else t, outs, xs[1..]);
    }
  }

  lemma {:induction false} InsertKeepsSwap(t: TokenTables, xs: seq<TokenOutput>, at: Outpoint -> Time)
    ensures InsertAll(t, xs, at).lastSwap == t.lastSwap
    decreases xs
  {
    if xs != [] {
      InsertKeepsSwap(InsertOutput(t, xs[0], at(xs[0].at)), xs[1..], at);
    }
  }

  lemma StepKeepsSwapDone(fk: bool, t: TokenTables, op: TokenOp, from: Time, until: Time, s: Time)
    requires SwapDone(t, s) && s <= from && TimesIn(op, from, until)
    ensures SwapDone(Apply(fk, t, op), s)
  {
    match op {
      case SetOutputs(outs, start, releaseAt, dropAt, at) =>
        RefreshReservation(CleanedUp(t, releaseAt, dropAt), outs, start, at, "");
      case UpdateOutputs(remove, add, removedAt, at) =>
        var back, t1 := Insertable(add, add.outputs), RemoveSpent(t, remove, removedAt);
        RemoveKeepsSwap(t, remove, removedAt);
        MetadataKeepsSwap(t1, add, add.outputs);
        InsertKeepsSwap(Unmark(UpsertAllMetadata(t1, add, add.outputs), Outpoints(back)), back, at);
      case Claim(_, _, _, _) =>
      case CancelClaim(_) =>
      case FinalizeClaim(_, _, _) =>
    }
  }

  lemma {:induction false} RunKeepsSwapDone(fk: bool, t: TokenTables, clock: Time, es: seq<TokenEvent>, s: Time)
    requires SwapDone(t, s) && s <= clock && ValidRun(fk, t, clock, es)
    ensures SwapDone(Run(fk, t, es), s)
    decreases es
  {
    if es != [] {
      var e := es[0];
      StepKeepsSwapDone(fk, t, e.op, e.from, e.until, s);
      RunKeepsSwapDone(fk, Apply(fk, t, e.op), e.until, es[1..], s);
    }
  }

  /** Once a swap claim is finalized, a refresh that began at or before its completion, after any
      further run, does not proceed and changes nothing. */
  lemma SwapOutlastsOlderRefreshes(fk: bool, t: TokenTables, swap: TokenOp, clock: Time, es: seq<TokenEvent>,
                                   refresh: TokenOp)
    requires swap.FinalizeClaim? && swap.swapAt <= clock
    requires swap.rid in t.reservations && t.reservations[swap.rid].purpose == TreeTables.Swap
    requires ValidRun(fk, Apply(fk, t, swap), clock, es)
    requires refresh.SetOutputs? && refresh.start <= swap.swapAt
    ensures var t' := Run(fk, Apply(fk, t, swap), es);
      && OutcomeOf(fk, t', refresh.start, refresh.releaseAt, refresh.dropAt) != Proceeded
      && Apply(fk, t', refresh) == t'
  {
    RunKeepsSwapDone(fk, Apply(fk, t, swap), clock, es, swap.swapAt);
  }
}

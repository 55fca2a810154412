/** No output is claimed twice: what a token reservation holds stays its own over every run that
    does not name it, but for what a refresh no longer reports and an update removes, and no later
    claim takes any of it. */
module TokenClaims {
  import opened Base
  import opened TokenSelection
  import opened TokenTables
  import opened TokenOps

  /** The reservation is there, unchanged, and of the rows it held it holds this part, as it was. */
  ghost predicate KeepsPart(t: TokenTables, t': TokenTables, rid: Rid, part: set<Outpoint>)
    requires rid in t.reservations && part <= Held(t, rid)
  {
    && rid in t'.reservations && t'.reservations[rid] == t.reservations[rid]
    && Held(t', rid) == part
    && forall o :: o in part ==> t'.outputs[o] == t.outputs[o]
  }

  /** The operation is a cancel or a finalize of the reservation. */
  predicate Names(op: TokenOp, rid: Rid)
  {
    (op.CancelClaim? || op.FinalizeClaim?) && op.rid == rid
  }

  /** What an operation leaves of held outputs: a refresh that proceeds leaves those it reports, an
      update those it does not remove. */
  ghost function Left(fk: bool, t: TokenTables, op: TokenOp, held: set<Outpoint>): (part: set<Outpoint>)
    ensures part <= held
  {
    match op
    case SetOutputs(outs, start, releaseAt, dropAt, _) =>
      if OutcomeOf(fk, t, start, releaseAt, dropAt).Proceeded? then held * Outpoints(outs.outputs) else held
    case UpdateOutputs(remove, _, _, _) => held - set o | o in remove
    case _ => held
  }

  /** What a run leaves of them. */
  ghost function LeftByRun(fk: bool, t: TokenTables, es: seq<TokenEvent>, held: set<Outpoint>): (part: set<Outpoint>)
    ensures part <= held
    decreases es
  {
    if es == [] then held else LeftByRun(fk, Apply(fk, t, es[0].op), es[1..], Left(fk, t, es[0].op, held))
  }

  // ----- one step -----------------------------------------------------------------------------------

  lemma CleanupKeepsClaim(t: TokenTables, releaseAt: Time, dropAt: Time, rid: Rid)
    requires rid in t.reservations && releaseAt <= dropAt && !TimedOut(t.reservations[rid], dropAt)
    ensures KeepsPart(t, CleanedUp(t, releaseAt, dropAt), rid, Held(t, rid))
  {
    var c := CleanedUp(t, releaseAt, dropAt);
    forall o ensures o in Held(c, rid) <==> o in Held(t, rid) {
    }
  }

  lemma RefreshedKeepsReported(c: TokenTables, outs: TokenOutputs, start: Time, at: Outpoint -> Time, rid: Rid)
    requires rid in c.reservations && Held(c, rid) * Outpoints(outs.outputs) != {}
    ensures KeepsPart(c, Refreshed(c, outs, start, at), rid, Held(c, rid) * Outpoints(outs.outputs))
  {
    var t', incoming := Refreshed(c, outs, start, at), Outpoints(outs.outputs);
    RefreshReservation(c, outs, start, at, rid);
    MeetIff(Held(c, rid), incoming);
    forall o ensures o in Held(t', rid) <==> o in Held(c, rid) * incoming
      ensures o in Held(c, rid) * incoming ==> RowAt(t', o) == Some(c.outputs[o])
    {
      RefreshRow(c, outs, start, at, o);
    }
  }

  lemma SetOutputsKeepsReported(fk: bool, t: TokenTables, op: TokenOp, rid: Rid)
    requires op.SetOutputs? && rid in t.reservations && Left(fk, t, op, Held(t, rid)) != {}
    requires op.releaseAt <= op.dropAt && !TimedOut(t.reservations[rid], op.dropAt)
    ensures KeepsPart(t, Apply(fk, t, op), rid, Left(fk, t, op, Held(t, rid)))
  {
    if OutcomeOf(fk, t, op.start, op.releaseAt, op.dropAt).Proceeded? {
      CleanupKeepsClaim(t, op.releaseAt, op.dropAt, rid);
      RefreshedKeepsReported(CleanedUp(t, op.releaseAt, op.dropAt), op.outs, op.start, op.at, rid);
    }
  }

  lemma {:induction false} RemoveKeepsRest(t: TokenTables, remove: seq<Outpoint>, at: Outpoint -> Time, rid: Rid)
    requires rid in t.reservations
    ensures KeepsPart(t, RemoveSpent(t, remove, at), rid, Held(t, rid) - set o | o in remove)
    decreases remove
  {
    if remove != [] {
      var p := remove[0];
      var t1 := if p in t.outputs then MarkSpent(DeleteOutputs(t, {p}), {p}, at(p)) else t;
      assert Held(t1, rid) == Held(t, rid) - {p};
      RemoveKeepsRest(t1, remove[1..], at, rid);
      assert remove == [p] + remove[1..];
      assert (set o | o in remove) == {p} + set o | o in remove[1..];
    }
  }

  lemma {:induction false} MetadataKeepsClaim(t: TokenTables, outs: TokenOutputs, xs: seq<TokenOutput>, rid: Rid)
    requires rid in t.reservations
    ensures KeepsPart(t, UpsertAllMetadata(t, outs, xs), rid, Held(t, rid))
    decreases xs
  {
    if xs != [] {
      var m := outs.MetadataFor(xs[0].token);
      MetadataKeepsClaim(if m.Some? then UpsertMetadata(t, m.value) else t, outs, xs[1..], rid);
    }
  }

  lemma {:induction false} InsertKeepsClaim(t: TokenTables, xs: seq<TokenOutput>, at: Outpoint -> Time, rid: Rid)
    requires rid in t.reservations
    ensures KeepsPart(t, InsertAll(t, xs, at), rid, Held(t, rid))
    decreases xs
  {
    if xs != [] {
      var t1 := InsertOutput(t, xs[0], at(xs[0].at));
      assert Held(t1, rid) == Held(t, rid);
      InsertKeepsClaim(t1, xs[1..], at, rid);
    }
  }

  lemma UpdateKeepsRest(t: TokenTables, op: TokenOp, rid: Rid)
    requires op.UpdateOutputs? && rid in t.reservations
    ensures KeepsPart(t, Updated(t, op.remove, op.add, op.removedAt, op.at), rid, Held(t, rid) - set o | o in op.remove)
  {
    var back, t1 := Insertable(op.add, op.add.outputs), RemoveSpent(t, op.remove, op.removedAt);
    RemoveKeepsRest(t, op.remove, op.removedAt, rid);
    MetadataKeepsClaim(t1, op.add, op.add.outputs, rid);
    var t2 := Unmark(UpsertAllMetadata(t1, op.add, op.add.outputs), Outpoints(back));
    assert KeepsPart(t1, t2, rid, Held(t1, rid));
    InsertKeepsClaim(t2, back, op.at, rid);
  }

  lemma FinalizeKeepsClaim(t: TokenTables, op: TokenOp, rid: Rid)
    requires op.FinalizeClaim? && rid in t.reservations && op.rid != rid
    ensures KeepsPart(t, Finalized(t, op.rid, op.spentAt, op.swapAt), rid, Held(t, rid))
  {
    var t' := Finalized(t, op.rid, op.spentAt, op.swapAt);
    forall o ensures o in Held(t', rid) <==> o in Held(t, rid) {
    }
  }

  lemma ClaimKeepsClaim(t: TokenTables, op: TokenOp, rid: Rid)
    requires op.Claim? && rid in t.reservations && Enabled(t, op)
    ensures KeepsPart(t, Claimed(t, op.rid, op.outpoints, op.purpose, op.now), rid, Held(t, rid))
    ensures op.outpoints !! Held(t, rid)
  {
    var t' := Claimed(t, op.rid, op.outpoints, op.purpose, op.now);
    forall o | o in op.outpoints ensures o in Available(t) {
    }
    forall o ensures o in Held(t', rid) <==> o in Held(t, rid) {
    }
  }

  lemma StepKeepsPart(fk: bool, t: TokenTables, op: TokenOp, from: Time, until: Time, rid: Rid)
    requires TimesIn(op, from, until) && Enabled(t, op) && rid in t.reservations && !Names(op, rid)
    requires !TimedOut(t.reservations[rid], until) && Left(fk, t, op, Held(t, rid)) != {}
    ensures KeepsPart(t, Apply(fk, t, op), rid, Left(fk, t, op, Held(t, rid)))
  {
    match op {
      case SetOutputs(_, _, _, _, _) => SetOutputsKeepsReported(fk, t, op, rid);
      case Claim(_, _, _, _) => ClaimKeepsClaim(t, op, rid);
      case FinalizeClaim(_, _, _) => FinalizeKeepsClaim(t, op, rid);
      case UpdateOutputs(_, _, _, _) => UpdateKeepsRest(t, op, rid);
      case CancelClaim(other) => assert Held(Released(t, other), rid) == Held(t, rid);
    }
  }

  // ----- every run ----------------------------------------------------------------------------------

  lemma {:induction false} EndOfLater(fk: bool, t: TokenTables, clock: Time, es: seq<TokenEvent>)
    requires ValidRun(fk, t, clock, es)
    ensures clock <= EndOf(clock, es)
    decreases es
  {
    if es != [] {
      EndOfLater(fk, Apply(fk, t, es[0].op), es[0].until, es[1..]);
    }
  }

  /** A reservation that no operation of a run cancels or finalizes and that has not reached its
      timeout by the end ends with exactly those of its rows that every refresh that proceeded
      reported and no update removed, as long as one is left. */
  lemma {:induction false} RunKeepsClaim(fk: bool, t: TokenTables, clock: Time, es: seq<TokenEvent>, rid: Rid)
    requires ValidRun(fk, t, clock, es) && rid in t.reservations && LeftByRun(fk, t, es, Held(t, rid)) != {}
    requires forall e :: e in es ==> !Names(e.op, rid)
    requires !TimedOut(t.reservations[rid], EndOf(clock, es))
    ensures KeepsPart(t, Run(fk, t, es), rid, LeftByRun(fk, t, es, Held(t, rid)))
    decreases es
  {
    if es != [] {
      var e := es[0];
      EndOfLater(fk, Apply(fk, t, e.op), e.until, es[1..]);
      StepKeepsPart(fk, t, e.op, e.from, e.until, rid);
      RunKeepsClaim(fk, Apply(fk, t, e.op), e.until, es[1..], rid);
    }
  }

  /** In particular it keeps all of them when every refresh of the run reports them and no update
      removes one. */
  lemma {:induction false} AllLeft(fk: bool, t: TokenTables, es: seq<TokenEvent>, held: set<Outpoint>)
    requires forall e :: e in es && e.op.SetOutputs? ==> held <= Outpoints(e.op.outs.outputs)
    requires forall e :: e in es && e.op.UpdateOutputs? ==> forall o :: o in e.op.remove ==> o !in held
    ensures LeftByRun(fk, t, es, held) == held
    decreases es
  {
    if es != [] {
      assert es[0] in es;
      assert Left(fk, t, es[0].op, held) == held;
      AllLeft(fk, Apply(fk, t, es[0].op), es[1..], held);
    }
  }

  /** So no claim made after such a run takes any of what is left. */
  lemma NoDoubleClaim(fk: bool, t: TokenTables, clock: Time, es: seq<TokenEvent>, rid: Rid, claim: TokenOp)
    requires ValidRun(fk, t, clock, es) && rid in t.reservations && LeftByRun(fk, t, es, Held(t, rid)) != {}
    requires forall e :: e in es ==> !Names(e.op, rid)
    requires !TimedOut(t.reservations[rid], EndOf(clock, es))
    requires claim.Claim? && Enabled(Run(fk, t, es), claim)
    ensures claim.outpoints !! LeftByRun(fk, t, es, Held(t, rid))
    ensures KeepsPart(t, Apply(fk, Run(fk, t, es), claim), rid, LeftByRun(fk, t, es, Held(t, rid)))
  {
    RunKeepsClaim(fk, t, clock, es, rid);
    ClaimKeepsClaim(Run(fk, t, es), claim, rid);
  }
}

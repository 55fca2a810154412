/** No double allocation: what a live reservation holds changes only through its own operations
    or its timeout. */
module TreeAllocation {
  import opened Base
  import opened TreeTables
  import opened LeafSelection
  import opened SelectionFacts
  import opened TreeOps
  import opened TreeInvariants
  import opened TreeRefresh

  /** The operation is addressed to this reservation. */
  predicate Addresses(op: Op, u: User, rid: ReservationId)
  {
    op.user == u && (op.Cancel? || op.Finalize? || op.Update?) && op.rid == rid
  }

  /** The operation is not addressed to the reservation and, if it updates another one, is not
      given leaves of this one. */
  predicate LeavesAlone(op: Op, u: User, rid: ReservationId, held: set<Id>)
  {
    !Addresses(op, u, rid) && (op.Update? && op.user == u ==> Ids(op.reserved) !! held)
  }

  /** The rows a selection reads list only eligible leaves. */
  lemma SlimRowsEligible(t: Tables, u: User, bound: nat, rows: seq<SlimLeaf>)
    requires AnswersSlim(t, u, bound, rows)
    ensures Distinct(IdsOf(rows))
    ensures forall id :: id in SlimIds(rows) ==> Key(u, id) in EligibleKeys(t, u)
  {}

  /** The reservation a selection opens takes only leaves no reservation held. */
  lemma SelectionTakesUnreserved(t: Tables, op: Op, clock: Time)
    requires Inv(t, clock) && op.TryReserve? && Enabled(t, op)
    requires DecisionOf(t, op).Reserve? && ResolveFull(t, op.user, DecisionOf(t, op).ids).Some?
    ensures forall id :: id in Ids(ResolveFull(t, op.user, DecisionOf(t, op).ids).value) ==>
      Key(op.user, id) in t.leaves && t.leaves[Key(op.user, id)].reservation.None?
  {
    var ids := DecisionOf(t, op).ids;
    SlimRowsEligible(t, op.user, SlimBound(op.target), op.rows);
    DecisionPicks(EligibleTotal(t, op.user), PendingTotal(t, op.user), op.rows, op.target, op.exactOnly);
    ResolvedIds(t, op.user, ids, clock);
  }

  /** The stored nodes resolved for a list of ids carry those ids. */
  lemma ResolvedIds(t: Tables, u: User, ids: seq<Id>, clock: Time)
    requires Inv(t, clock) && ResolveFull(t, u, ids).Some?
    ensures forall id :: id in Ids(ResolveFull(t, u, ids).value) <==> id in ids
  {
    var nodes := ResolveFull(t, u, ids).value;
    forall i | 0 <= i < |ids| ensures nodes[i].id == ids[i] {
      assert ids[i] in ids;
      assert LeafOk(t, clock, Key(u, ids[i]));
    }
    forall id | id in ids ensures id in Ids(nodes) {
      var i :| 0 <= i < |ids| && ids[i] == id;
      assert nodes[i] in nodes;
    }
  }

  lemma ReserveKeepsHeld(t: Tables, u: User, ids: set<Id>, purpose: Purpose, pending: U64, now: Time,
                         rid: ReservationId, other: User, otherRid: ReservationId)
    requires !IsLive(t, u, rid) && IsLive(t, other, otherRid)
    requires forall id :: id in ids ==> Key(u, id) in t.leaves && t.leaves[Key(u, id)].reservation.None?
    ensures HeldBy(CreateReservation(t, u, rid, ids, purpose, pending, now), other, otherRid) ==
      HeldBy(t, other, otherRid)
    ensures KeepsReservation(t, CreateReservation(t, u, rid, ids, purpose, pending, now), other, otherRid)
  {
    var t' := CreateReservation(t, u, rid, ids, purpose, pending, now);
    HeldSame(t, t', other, otherRid);
  }

  ghost predicate KeepsReservation(t: Tables, t': Tables, u: User, rid: ReservationId)
    requires IsLive(t, u, rid)
  {
    IsLive(t', u, rid) && t'.reservations[Key(u, rid)] == t.reservations[Key(u, rid)]
  }

  /** Held ids agree when the same rows name the reservation. */
  lemma HeldSame(t: Tables, t': Tables, u: User, rid: ReservationId)
    requires forall k :: k in t.leaves && k.user == u && t.leaves[k].reservation == Some(rid) ==>
      k in t'.leaves && t'.leaves[k].reservation == Some(rid)
    requires forall k :: k in t'.leaves && k.user == u && t'.leaves[k].reservation == Some(rid) ==>
      k in t.leaves && t.leaves[k].reservation == Some(rid)
    ensures HeldBy(t', u, rid) == HeldBy(t, u, rid)
  {}

  lemma UpsertKeepsHeld(t: Tables, u: User, nodes: seq<TreeNode>, missing: bool, at: Id -> Time, v: User,
                        rid: ReservationId)
    ensures HeldBy(UpsertLeaves(t, u, nodes, missing, at), v, rid) == HeldBy(t, v, rid)
  {
    HeldSame(t, UpsertLeaves(t, u, nodes, missing, at), v, rid);
  }

  lemma SpendKeepsHeld(t: Tables, u: User, rid: ReservationId, held: set<Id>, at: Time, v: User, other: ReservationId)
    requires u != v || rid != other
    ensures HeldBy(Spend(t, u, rid, held, at), v, other) == HeldBy(t, v, other)
  {
    HeldSame(t, Spend(t, u, rid, held, at), v, other);
  }

  /** An update of another reservation takes from this one exactly the leaves it is given. */
  lemma UpdateTakes(t: Tables, op: Op, rid: ReservationId)
    requires op.Update? && IsLive(t, op.user, op.rid) && rid != op.rid
    ensures HeldBy(Updated(t, op), op.user, rid) == HeldBy(t, op.user, rid) - Ids(op.reserved)
  {
    var u := op.user;
    var t1 := Spend(t, u, op.rid, HeldBy(t, u, op.rid), op.spentAt);
    SpendKeepsHeld(t, u, op.rid, HeldBy(t, u, op.rid), op.spentAt, u, rid);
    UpsertKeepsHeld(t1, u, op.change, false, op.atChange, u, rid);
    var t2 := UpsertLeaves(t1, u, op.change, false, op.atChange);
    UpsertKeepsHeld(t2, u, op.reserved, false, op.atReserved, u, rid);
    var t3 := UpsertLeaves(t2, u, op.reserved, false, op.atReserved);
    AssignTakes(t3, u, Ids(op.reserved), op.rid, rid);
    HeldSame(SetReservation(t3, u, Ids(op.reserved), op.rid), Updated(t, op), u, rid);
  }

  lemma AssignTakes(t: Tables, u: User, ids: set<Id>, rid: ReservationId, other: ReservationId)
    requires rid != other
    ensures HeldBy(SetReservation(t, u, ids, rid), u, other) == HeldBy(t, u, other) - ids
  {
    var t' := SetReservation(t, u, ids, rid);
    forall id | id in HeldBy(t, u, other) - ids ensures id in HeldBy(t', u, other) {
      assert Key(u, id) in t'.leaves;
    }
  }

  lemma CleanupKeepsHeld(t: Tables, v: User, releaseAt: Time, dropAt: Time, u: User, rid: ReservationId)
    requires IsLive(t, u, rid)
    requires v == u ==> !TimedOut(t.reservations[Key(u, rid)], dropAt) && releaseAt <= dropAt
    ensures HeldBy(CleanedUp(t, v, releaseAt, dropAt), u, rid) == HeldBy(t, u, rid)
    ensures KeepsReservation(t, CleanedUp(t, v, releaseAt, dropAt), u, rid)
  {
    HeldSame(t, CleanedUp(t, v, releaseAt, dropAt), u, rid);
  }

  lemma RefreshKeepsHeld(fk: bool, t: Tables, op: Op, u: User, rid: ReservationId)
    requires op.SetLeaves? && IsLive(t, u, rid)
    requires op.user == u ==> !TimedOut(t.reservations[Key(u, rid)], op.dropAt) && op.releaseAt <= op.dropAt
    ensures HeldBy(Refresh(fk, t, op), u, rid) == HeldBy(t, u, rid)
    ensures KeepsReservation(t, Refresh(fk, t, op), u, rid)
  {
    CleanupKeepsHeld(t, op.user, op.releaseAt, op.dropAt, u, rid);
    RefreshedKeepsHeld(CleanedUp(t, op.user, op.releaseAt, op.dropAt), op, u, rid);
  }

  lemma RefreshedKeepsHeld(c: Tables, op: Op, u: User, rid: ReservationId)
    requires op.SetLeaves?
    ensures var t' := Refreshed(c, op.user, op.nodes, op.missingNodes, op.start, op.at, op.atMissing);
      HeldBy(t', u, rid) == HeldBy(c, u, rid) && t'.reservations == c.reservations
  {
    var t' := Refreshed(c, op.user, op.nodes, op.missingNodes, op.start, op.at, op.atMissing);
    forall k ensures RowAt(t', k) == ExpectedRow(c, op, k) && t'.reservations == c.reservations {
      RefreshExactly(c, op, k);
    }
    assert t'.reservations == c.reservations by { RefreshExactly(c, op, Key(u, rid)); }
    ExpectedKeepsHeld(c, t', op, u, rid);
  }

  lemma ExpectedKeepsHeld(c: Tables, t': Tables, op: Op, u: User, rid: ReservationId)
    requires op.SetLeaves? && forall k :: RowAt(t', k) == ExpectedRow(c, op, k)
    ensures HeldBy(t', u, rid) == HeldBy(c, u, rid)
  {
    forall k | k in c.leaves && c.leaves[k].reservation == Some(rid)
      ensures k in t'.leaves && t'.leaves[k].reservation == Some(rid)
    {
      assert RowAt(t', k) == ExpectedRow(c, op, k);
    }
    forall k | k in t'.leaves && t'.leaves[k].reservation == Some(rid)
      ensures k in c.leaves && c.leaves[k].reservation == Some(rid)
    {
      assert RowAt(t', k) == ExpectedRow(c, op, k);
    }
    HeldSame(c, t', u, rid);
  }

  /** One step. */
  lemma StepKeepsHeld(fk: bool, t: Tables, op: Op, from: Time, until: Time, u: User, rid: ReservationId)
    requires Inv(t, from) && TimesIn(op, from, until) && from <= until && Enabled(t, op) && IsLive(t, u, rid)
    requires LeavesAlone(op, u, rid, HeldBy(t, u, rid))
    requires !TimedOut(t.reservations[Key(u, rid)], until)
    ensures HeldBy(Apply(fk, t, op), u, rid) == HeldBy(t, u, rid)
    ensures KeepsReservation(t, Apply(fk, t, op), u, rid)
  {
    var t' := Apply(fk, t, op);
    match op {
      case AddLeaves(v, nodes, at) => UpsertKeepsHeld(UnmarkSpent(t, v, Ids(nodes)), v, nodes, false, at, u, rid);
      case StoreAncestors(v, ps) =>
        var live := Storable(t, v, ps);
        InsertChainsOnlyAdds(DeleteChains(t, v, LeafIds(live)), v, ChainRows(live));
      case SetLeaves(_, _, _, _, _, _, _, _) =>
        RefreshKeepsHeld(fk, t, op, u, rid);
      case Cancel(_, _, _, _) => CancelKeepsHeld(t, op, u, rid);
      case Finalize(_, _, _, _, _, _) => FinalizeKeepsHeld(t, op, u, rid);
      case TryReserve(_, _, _, _, _, _, _) => OpenKeepsHeld(fk, t, op, from, u, rid);
      case ReserveByIds(_, _, _, _, _) => OpenKeepsHeld(fk, t, op, from, u, rid);
      case Update(_, _, _, _, _, _, _) => UpdateKeepsHeld(t, op, u, rid);
    }
  }

  lemma CancelKeepsHeld(t: Tables, op: Op, u: User, rid: ReservationId)
    requires op.Cancel? && IsLive(t, u, rid) && !Addresses(op, u, rid)
    ensures HeldBy(Cancelled(t, op), u, rid) == HeldBy(t, u, rid) && KeepsReservation(t, Cancelled(t, op), u, rid)
  {
    HeldSame(t, Cancelled(t, op), u, rid);
  }

  lemma FinalizeKeepsHeld(t: Tables, op: Op, u: User, rid: ReservationId)
    requires op.Finalize? && IsLive(t, u, rid) && !Addresses(op, u, rid)
    ensures HeldBy(Finalized(t, op), u, rid) == HeldBy(t, u, rid) && KeepsReservation(t, Finalized(t, op), u, rid)
  {
    HeldSame(t, Finalized(t, op), u, rid);
  }

  lemma UpdateKeepsHeld(t: Tables, op: Op, u: User, rid: ReservationId)
    requires op.Update? && IsLive(t, u, rid) && LeavesAlone(op, u, rid, HeldBy(t, u, rid))
    ensures HeldBy(Updated(t, op), u, rid) == HeldBy(t, u, rid) && KeepsReservation(t, Updated(t, op), u, rid)
  {
    if op.user == u && IsLive(t, u, op.rid) {
      UpdateTakes(t, op, rid);
    } else {
      HeldSame(t, Updated(t, op), u, rid);
    }
  }

  lemma OpenKeepsHeld(fk: bool, t: Tables, op: Op, clock: Time, u: User, rid: ReservationId)
    requires (op.TryReserve? || op.ReserveByIds?) && Inv(t, clock) && Enabled(t, op) && IsLive(t, u, rid)
    ensures HeldBy(Apply(fk, t, op), u, rid) == HeldBy(t, u, rid) && KeepsReservation(t, Apply(fk, t, op), u, rid)
  {
    if op.TryReserve? {
      var d := DecisionOf(t, op);
      if d.Reserve? && ResolveFull(t, op.user, d.ids).Some? {
        var nodes := ResolveFull(t, op.user, d.ids).value;
        SelectionTakesUnreserved(t, op, clock);
        ReserveKeepsHeld(t, op.user, Ids(nodes), op.purpose, PendingChange(nodes, TotalSats(op.target), d.minimum),
                         op.now, op.rid, u, rid);
      }
    } else if ReservableIds(t, op.user, op.ids) {
      ResolvedIds(t, op.user, op.ids, clock);
      ReserveKeepsHeld(t, op.user, Ids(ResolveFull(t, op.user, op.ids).value), op.purpose, 0, op.now, op.rid, u, rid);
    }
  }

  lemma {:induction false} EndOfLater(fk: bool, t: Tables, clock: Time, es: seq<Event>)
    requires ValidRun(fk, t, clock, es)
    ensures clock <= EndOf(clock, es)
    decreases es
  {
    if es != [] {
      EndOfLater(fk, Apply(fk, t, es[0].op), es[0].until, es[1..]);
    }
  }

  /** A reservation that has not reached its timeout by the end of a run is still there and holds
      exactly the leaves it held, as long as no operation of the run is addressed to it and no
      update of another reservation is given its leaves. */
  lemma {:induction false} RunKeepsHeld(fk: bool, t: Tables, clock: Time, es: seq<Event>, u: User, rid: ReservationId)
    requires Inv(t, clock) && ValidRun(fk, t, clock, es) && LinkedRun(fk, t, es) && IsLive(t, u, rid)
    requires forall e :: e in es ==> LeavesAlone(e.op, u, rid, HeldBy(t, u, rid))
    requires !TimedOut(t.reservations[Key(u, rid)], EndOf(clock, es))
    ensures HeldBy(Run(fk, t, es), u, rid) == HeldBy(t, u, rid)
    ensures KeepsReservation(t, Run(fk, t, es), u, rid)
    decreases es
  {
    if es != [] {
      var e := es[0];
      InvLater(t, clock, e.from);
      EndOfLater(fk, Apply(fk, t, e.op), e.until, es[1..]);
      StepKeepsHeld(fk, t, e.op, e.from, e.until, u, rid);
      StepKeepsInv(fk, t, e.op, e.from, e.until);
      RunKeepsHeld(fk, Apply(fk, t, e.op), e.until, es[1..], u, rid);
    }
  }
}

/** Value conservation across operations: a reservation given back restores the pool, and an
    over-reserved payment costs exactly its target. */
module TreeConservation {
  import opened Base
  import opened TreeTables
  import opened LeafSelection
  import opened SelectionFacts
  import opened TreeOps
  import opened TreeInvariants
  import opened TreeAllocation
  import opened SlimQuery
  import opened TreeBalance

  // ----- reserve, then cancel keeping everything ---------------------------------------------------

  /** The same pool, but for the time some leaves were added. */
  ghost predicate SamePool(t: Tables, t': Tables)
  {
    && t'.reservations == t.reservations && t'.spent == t.spent && t'.chains == t.chains && t'.swaps == t.swaps
    && t'.leaves.Keys == t.leaves.Keys
    && forall k :: k in t.leaves ==> t'.leaves[k] == t.leaves[k].(addedAt := t'.leaves[k].addedAt)
  }

  /** The same pool has the same spendable leaves, spendable total and balance. */
  lemma SamePoolSameFunds(t: Tables, t': Tables, u: User)
    requires SamePool(t, t')
    ensures EligibleKeys(t', u) == EligibleKeys(t, u)
    ensures EligibleTotal(t', u) == EligibleTotal(t, u)
    ensures Balance(t', u) == Balance(t, u)
  {
    forall k | k in t.leaves ensures (Eligible(t'.leaves[k]) <==> Eligible(t.leaves[k]))
      && t'.leaves[k].value == t.leaves[k].value
      && (Counted(t', k) <==> Counted(t, k))
    {
      assert t'.leaves[k] == t.leaves[k].(addedAt := t'.leaves[k].addedAt);
    }
    assert EligibleKeys(t', u) == EligibleKeys(t, u);
    SumSame(EligibleKeys(t, u), ValueColumn(t.leaves), ValueColumn(t'.leaves));
    assert CountedKeys(t', u) == CountedKeys(t, u);
    SumSame(CountedKeys(t, u), ValueColumn(t.leaves), ValueColumn(t'.leaves));
  }

  lemma ResolvedNodes(t: Tables, u: User, ids: seq<Id>, clock: Time)
    requires Inv(t, clock) && ResolveFull(t, u, ids).Some?
    ensures var nodes := ResolveFull(t, u, ids).value;
      && DistinctNodes(nodes)
      && forall n :: n in nodes ==> Key(u, n.id) in t.leaves && n == t.leaves[Key(u, n.id)].data
  {
    var nodes := ResolveFull(t, u, ids).value;
    forall i | 0 <= i < |ids| ensures nodes[i].id == ids[i] {
      assert ids[i] in ids;
      assert LeafOk(t, clock, Key(u, ids[i]));
    }
  }

  lemma CancelUndoesReserve(t: Tables, u: User, rid: ReservationId, keep: seq<TreeNode>, purpose: Purpose,
                            pending: U64, now: Time, at: Id -> Time, clock: Time)
    requires Inv(t, clock) && !IsLive(t, u, rid) && HeldBy(t, u, rid) == {} && DistinctNodes(keep)
    requires forall n :: n in keep ==> Key(u, n.id) in EligibleKeys(t, u) && n == t.leaves[Key(u, n.id)].data
    ensures SamePool(t, Cancelled(CreateReservation(t, u, rid, Ids(keep), purpose, pending, now),
      Cancel(u, rid, keep, at)))
  {
    HeldIsGiven(t, u, rid, Ids(keep), purpose, pending, now);
    CancelRestores(t, CreateReservation(t, u, rid, Ids(keep), purpose, pending, now), u, rid, keep, at, clock);
  }

  lemma CancelRestores(t: Tables, t1: Tables, u: User, rid: ReservationId, keep: seq<TreeNode>, at: Id -> Time,
                       clock: Time)
    requires Inv(t, clock) && !IsLive(t, u, rid) && DistinctNodes(keep) && HeldBy(t1, u, rid) == Ids(keep)
    requires forall n :: n in keep ==> Key(u, n.id) in EligibleKeys(t, u) && n == t.leaves[Key(u, n.id)].data
    requires t1.leaves.Keys == t.leaves.Keys && t1.spent == t.spent && t1.chains == t.chains && t1.swaps == t.swaps
    requires forall k :: k in t.leaves && k !in Keys(u, Ids(keep)) ==> t1.leaves[k] == t.leaves[k]
    requires t1.reservations - {Key(u, rid)} == t.reservations
    ensures SamePool(t, Cancelled(t1, Cancel(u, rid, keep, at)))
  {
    CancelledRows(t1, u, rid, keep, at);
    var t2 := Cancelled(t1, Cancel(u, rid, keep, at));
    forall n | n in keep ensures RowOf(n, false, None, at(n.id)) == t.leaves[Key(u, n.id)].(addedAt := at(n.id)) {
      assert LeafOk(t, clock, Key(u, n.id));
    }
    forall k | k in Keys(u, Ids(keep))
      ensures k in t.leaves && t2.leaves[k] == t.leaves[k].(addedAt := t2.leaves[k].addedAt) {
      var n :| n in keep && n.id == k.id;
      assert k == Key(u, n.id);
    }
  }

  /** A cancel that keeps exactly what the reservation held. */
  lemma CancelledRows(t1: Tables, u: User, rid: ReservationId, keep: seq<TreeNode>, at: Id -> Time)
    requires DistinctNodes(keep) && HeldBy(t1, u, rid) == Ids(keep)
    ensures var t2 := Cancelled(t1, Cancel(u, rid, keep, at));
      && t2.leaves.Keys == t1.leaves.Keys + Keys(u, Ids(keep))
      && (forall n :: n in keep ==> t2.leaves[Key(u, n.id)] == RowOf(n, false, None, at(n.id)))
      && (forall k :: k in t1.leaves && k !in Keys(u, Ids(keep)) ==> t2.leaves[k] == t1.leaves[k])
      && t2.reservations == t1.reservations - {Key(u, rid)}
      && t2.spent == t1.spent && t2.chains == t1.chains && t2.swaps == t1.swaps
  {
    assert HeldBy(t1, u, rid) - Ids(keep) == {};
    forall n | n in keep ensures n.id in Ids(keep) && LastOf(keep, n.id) == n {
      LastOfDistinct(keep, n);
    }
  }

  lemma HeldIsGiven(t: Tables, u: User, rid: ReservationId, ids: set<Id>, purpose: Purpose, pending: U64, now: Time)
    requires HeldBy(t, u, rid) == {} && forall id :: id in ids ==> Key(u, id) in t.leaves
    ensures HeldBy(CreateReservation(t, u, rid, ids, purpose, pending, now), u, rid) == ids
  {
    var t' := CreateReservation(t, u, rid, ids, purpose, pending, now);
    forall id | id in ids ensures id in HeldBy(t', u, rid) {
      assert Key(u, id) in t'.leaves;
    }
    forall id | id in HeldBy(t', u, rid) ensures id in ids {
      assert Key(u, id) in t.leaves && (t.leaves[Key(u, id)].reservation == Some(rid) ==> id in HeldBy(t, u, rid));
    }
  }

  /** The leaves an attempt to reserve takes, by target or by id; None when it takes nothing. */
  ghost function Taken(t: Tables, op: Op): Option<seq<TreeNode>>
    requires op.TryReserve? || op.ReserveByIds?
  {
    if op.TryReserve? then
      var d := DecisionOf(t, op);
      if d.Reserve? then ResolveFull(t, op.user, d.ids) else None
    else if ReservableIds(t, op.user, op.ids) then ResolveFull(t, op.user, op.ids) else None
  }

  lemma TakenAreEligible(t: Tables, op: Op, clock: Time)
    requires Inv(t, clock) && (op.TryReserve? || op.ReserveByIds?) && Enabled(t, op) && Taken(t, op).Some?
    ensures DistinctNodes(Taken(t, op).value)
    ensures forall n :: n in Taken(t, op).value ==>
      Key(op.user, n.id) in EligibleKeys(t, op.user) && n == t.leaves[Key(op.user, n.id)].data
  {
    var ids := if op.TryReserve? then DecisionOf(t, op).ids else op.ids;
    ResolvedNodes(t, op.user, ids, clock);
    if op.TryReserve? {
      ReservedAreEligible(t, op, clock);
    } else {
      ResolvedIds(t, op.user, ids, clock);
    }
    forall n | n in Taken(t, op).value ensures Key(op.user, n.id) in EligibleKeys(t, op.user) {
      assert n.id in Ids(Taken(t, op).value);
    }
  }

  lemma TakingOpens(fk: bool, t: Tables, op: Op) returns (pending: U64)
    requires (op.TryReserve? || op.ReserveByIds?) && Enabled(t, op) && Taken(t, op).Some?
    ensures Apply(fk, t, op)
      == CreateReservation(t, op.user, op.rid, Ids(Taken(t, op).value), op.purpose, pending, op.now)
    ensures pending == if op.TryReserve?
      then PendingChange(Taken(t, op).value, TotalSats(op.target), DecisionOf(t, op).minimum) else 0
  {
    pending := 0;
    if op.TryReserve? {
      pending := PendingChange(Taken(t, op).value, TotalSats(op.target), DecisionOf(t, op).minimum);
    }
  }

  /** Reserving leaves, by target or by id, and cancelling the reservation keeping all of them
      restores the pool. */
  lemma ReserveThenCancelRestores(fk: bool, t: Tables, clock: Time, op: Op, at: Id -> Time)
    requires Inv(t, clock) && (op.TryReserve? || op.ReserveByIds?) && Enabled(t, op) && Taken(t, op).Some?
    ensures var t' := Apply(fk, Apply(fk, t, op), Cancel(op.user, op.rid, Taken(t, op).value, at));
      SamePool(t, t') && Balance(t', op.user) == Balance(t, op.user)
      && EligibleTotal(t', op.user) == EligibleTotal(t, op.user)
  {
    var u, keep := op.user, Taken(t, op).value;
    TakenAreEligible(t, op, clock);
    var pending := TakingOpens(fk, t, op);
    var t1 := CreateReservation(t, u, op.rid, Ids(keep), op.purpose, pending, op.now);
    CancelUndoesReserve(t, u, op.rid, keep, op.purpose, pending, op.now, at, clock);
    CancelStep(fk, t1, Cancel(u, op.rid, keep, at));
    SamePoolSameFunds(t, Cancelled(t1, Cancel(u, op.rid, keep, at)), u);
  }

  lemma CancelStep(fk: bool, t: Tables, op: Op)
    requires op.Cancel?
    ensures Apply(fk, t, op) == Cancelled(t, op)
  {}

  lemma ReservedAreEligible(t: Tables, op: Op, clock: Time)
    requires Inv(t, clock) && op.TryReserve? && Enabled(t, op)
    requires DecisionOf(t, op).Reserve? && ResolveFull(t, op.user, DecisionOf(t, op).ids).Some?
    ensures forall id :: id in Ids(ResolveFull(t, op.user, DecisionOf(t, op).ids).value) ==>
      Key(op.user, id) in EligibleKeys(t, op.user)
  {
    var ids := DecisionOf(t, op).ids;
    SlimRowsEligible(t, op.user, SlimBound(op.target), op.rows);
    DecisionPicks(EligibleTotal(t, op.user), PendingTotal(t, op.user), op.rows, op.target, op.exactOnly);
    ResolvedIds(t, op.user, ids, clock);
  }

  // ----- an over-reserved payment ------------------------------------------------------------------

  /** The reserved leaves of an update, and none of its change. */
  ghost predicate NewReserved(t: Tables, op: Op)
    requires op.Update?
  {
    Ids(op.reserved) !! Ids(op.change) && forall id :: id in Ids(op.reserved) ==> Key(op.user, id) !in t.leaves
  }

  /** Updating a payment reservation adds exactly the change to the balance. */
  lemma UpdateAddsChange(t: Tables, op: Op)
    requires op.Update? && IsLive(t, op.user, op.rid) && !IsSwap(t, op.user, op.rid)
    requires NewToPool(t, op.user, op.change) && NewReserved(t, op)
    ensures Balance(Updated(t, op), op.user) == Balance(t, op.user) + NodeTotal(op.change)
  {
    var u := op.user;
    var t1 := Spend(t, u, op.rid, HeldBy(t, u, op.rid), op.spentAt);
    SpentCosts(t, t1, u, op.rid);
    UpsertNewAddsTotal(t1, u, op.change, op.atChange);
    ReservedStayOut(t1, op);
  }

  lemma ReservedStayOut(t1: Tables, op: Op)
    requires op.Update? && IsLive(t1, op.user, op.rid) && !IsSwap(t1, op.user, op.rid) && NewReserved(t1, op)
    ensures Balance(Replaced(t1, op), op.user) ==
      Balance(UpsertLeaves(t1, op.user, op.change, false, op.atChange), op.user)
  {
    var u := op.user;
    var t2 := UpsertLeaves(t1, u, op.change, false, op.atChange);
    ReplacedRows(t1, t2, op);
    SameCounted(t2, Replaced(t1, op), u, op.rid, Keys(u, Ids(op.reserved)));
  }

  /** What replacing does to the rows: the reserved leaves are there under the reservation, the
      others are as the change left them. */
  lemma ReplacedRows(t1: Tables, t2: Tables, op: Op)
    requires op.Update? && IsLive(t1, op.user, op.rid)
    requires t2 == UpsertLeaves(t1, op.user, op.change, false, op.atChange)
    ensures var t4, reserved := Replaced(t1, op), Keys(op.user, Ids(op.reserved));
      && t4.leaves.Keys == t2.leaves.Keys + reserved
      && (forall k :: k in reserved ==> t4.leaves[k].reservation == Some(op.rid))
      && (forall k :: k in t2.leaves && k !in reserved ==> t4.leaves[k] == t2.leaves[k])
      && t4.reservations == t2.reservations[Key(op.user, op.rid) :=
        t2.reservations[Key(op.user, op.rid)].(pending := 0)]
  {}

  lemma SameCounted(t2: Tables, t4: Tables, u: User, rid: ReservationId, reserved: set<Key>)
    requires IsLive(t2, u, rid) && !IsSwap(t2, u, rid) && t2.leaves.Keys !! reserved
    requires forall k :: k in reserved ==> k.user == u
    requires t4.leaves.Keys == t2.leaves.Keys + reserved
    requires forall k :: k in reserved ==> t4.leaves[k].reservation == Some(rid)
    requires forall k :: k in t2.leaves ==> t4.leaves[k] == t2.leaves[k]
    requires t4.reservations == t2.reservations[Key(u, rid) := t2.reservations[Key(u, rid)].(pending := 0)]
    ensures Balance(t4, u) == Balance(t2, u)
  {
    forall k | k in t2.leaves && k.user == u ensures Counted(t4, k) <==> Counted(t2, k) {
    }
    assert CountedKeys(t4, u) == CountedKeys(t2, u) - {} + {};
    BalanceShift(t2, t4, u, {}, {});
  }

  /** A payment that reserves more than its target, is updated into new reserved leaves and the
      pending change, and is finalized, lowers the balance by exactly the target. */
  lemma OverReservedPaymentCostsTarget(fk: bool, t: Tables, clock: Time, reserve: Op, update: Op, settle: Op,
                                       t1: Tables, t2: Tables, t3: Tables)
    requires Inv(t, clock) && reserve.TryReserve? && reserve.purpose == Payment && Enabled(t, reserve)
    requires ValuesFit(t, reserve.user) && EligibleTotal(t, reserve.user) <= I64_MAX
    requires DecisionOf(t, reserve).Reserve? && DecisionOf(t, reserve).minimum
    requires ResolveFull(t, reserve.user, DecisionOf(t, reserve).ids).Some?
    requires t1 == Apply(fk, t, reserve)
    requires update.Update? && update.user == reserve.user && update.rid == reserve.rid && t2 == Apply(fk, t1, update)
    requires settle.Finalize? && settle.user == reserve.user && settle.rid == reserve.rid && settle.newLeaves.None?
    requires t3 == Apply(fk, t2, settle)
    requires NewToPool(t1, update.user, update.change) && NewReserved(t1, update)
    requires IsLive(t1, update.user, update.rid)
      && NodeTotal(update.change) == t1.reservations[Key(update.user, update.rid)].pending
    ensures Balance(t3, reserve.user) == Balance(t, reserve.user) - TotalSats(reserve.target)
  {
    ReserveStep(fk, t, reserve);
    UpdateStep(fk, t1, update);
    FinalizeStep(fk, t2, settle);
    OpeningTakesTargetAndPending(t, clock, reserve, t1);
    UpdateThenSettle(t1, update, settle);
  }

  lemma ReserveStep(fk: bool, t: Tables, op: Op)
    requires op.TryReserve?
    ensures Apply(fk, t, op) == TryReserved(t, op)
  {}

  lemma UpdateStep(fk: bool, t: Tables, op: Op)
    requires op.Update?
    ensures Apply(fk, t, op) == Updated(t, op)
  {}

  lemma FinalizeStep(fk: bool, t: Tables, op: Op)
    requires op.Finalize?
    ensures Apply(fk, t, op) == Finalized(t, op)
  {}

  /** A minimum reservation for a payment takes its target and the change it leaves pending. */
  lemma OpeningTakesTargetAndPending(t: Tables, clock: Time, op: Op, t1: Tables)
    requires Inv(t, clock) && op.TryReserve? && op.purpose == Payment && Enabled(t, op)
    requires ValuesFit(t, op.user) && EligibleTotal(t, op.user) <= I64_MAX
    requires DecisionOf(t, op).Reserve? && DecisionOf(t, op).minimum
    requires ResolveFull(t, op.user, DecisionOf(t, op).ids).Some?
    requires t1 == TryReserved(t, op)
    ensures IsLive(t1, op.user, op.rid) && !IsSwap(t1, op.user, op.rid)
    ensures Balance(t1, op.user)
      == Balance(t, op.user) - TotalSats(op.target) - t1.reservations[Key(op.user, op.rid)].pending
  {
    var u, d := op.user, DecisionOf(t, op);
    var nodes := ResolveFull(t, u, d.ids).value;
    MinimumReaches(t, clock, op);
    ReservedAreEligible(t, op, clock);
    PendingIsExcess(nodes, TotalSats(op.target));
    PaymentOpened(t, u, op.rid, nodes, TotalSats(op.target), PendingChange(nodes, TotalSats(op.target), true), op.now);
  }

  lemma PendingIsExcess(nodes: seq<TreeNode>, needed: U64)
    requires 0 < needed <= NodeTotal(nodes) <= I64_MAX
    ensures PendingChange(nodes, needed, true) == NodeTotal(nodes) - needed
  {}

  lemma PaymentOpened(t: Tables, u: User, rid: ReservationId, nodes: seq<TreeNode>, needed: U64, pending: U64,
                      now: Time)
    requires !IsLive(t, u, rid) && HeldBy(t, u, rid) == {} && pending <= I64_MAX && pending == NodeTotal(nodes) - needed
    requires NodeTotal(nodes) == Sum(Keys(u, Ids(nodes)), ValueColumn(t.leaves))
    requires forall id :: id in Ids(nodes) ==> Key(u, id) in EligibleKeys(t, u)
    ensures var t1 := CreateReservation(t, u, rid, Ids(nodes), Payment, pending, now);
      && IsLive(t1, u, rid) && !IsSwap(t1, u, rid)
      && Balance(t1, u) == Balance(t, u) - needed - t1.reservations[Key(u, rid)].pending
  {
    ReserveShiftsBalance(t, u, rid, Ids(nodes), Payment, pending, now);
  }

  lemma UpdateThenSettle(t: Tables, update: Op, settle: Op)
    requires update.Update? && IsLive(t, update.user, update.rid) && !IsSwap(t, update.user, update.rid)
    requires settle.Finalize? && settle.user == update.user && settle.rid == update.rid && settle.newLeaves.None?
    requires NewToPool(t, update.user, update.change) && NewReserved(t, update)
    ensures Balance(Finalized(Updated(t, update), settle), update.user) ==
      Balance(t, update.user) + NodeTotal(update.change)
  {
    UpdateAddsChange(t, update);
    UpdateKeepsPurpose(t, update);
    FinalizeShiftsBalance(Updated(t, update), settle);
  }

  lemma UpdateKeepsPurpose(t: Tables, op: Op)
    requires op.Update? && IsLive(t, op.user, op.rid)
    ensures IsLive(Updated(t, op), op.user, op.rid)
    ensures IsSwap(Updated(t, op), op.user, op.rid) == IsSwap(t, op.user, op.rid)
  {}

  /** A minimum selection holds at least the target, and no more than the pool. */
  lemma MinimumReaches(t: Tables, clock: Time, op: Op)
    requires Inv(t, clock) && op.TryReserve? && Enabled(t, op) && ValuesFit(t, op.user)
    requires DecisionOf(t, op).Reserve? && DecisionOf(t, op).minimum
    requires ResolveFull(t, op.user, DecisionOf(t, op).ids).Some?
    ensures var nodes := ResolveFull(t, op.user, DecisionOf(t, op).ids).value;
      && 0 < TotalSats(op.target) <= NodeTotal(nodes) <= EligibleTotal(t, op.user)
      && NodeTotal(nodes) == Sum(Keys(op.user, Ids(nodes)), ValueColumn(t.leaves))
  {
    var u, d := op.user, DecisionOf(t, op);
    var nodes := ResolveFull(t, u, d.ids).value;
    var p := MinPrefix(op.rows, TotalSats(op.target));
    MinPrefixPicks(op.rows, TotalSats(op.target));
    ResolvedNodes(t, u, d.ids, clock);
    forall n | n in nodes ensures t.leaves[Key(u, n.id)].value == n.value {
      assert LeafOk(t, clock, Key(u, n.id));
    }
    RowsTotalNodes(t.leaves, u, nodes);
    ReservedAreEligible(t, op, clock);
    ResolvedIds(t, u, d.ids, clock);
    PrefixLists(t, op, p);
    assert Keys(u, Ids(nodes)) == Keys(u, SlimIds(p));
    ListsTotal(t, u, Keys(u, SlimIds(p)), p);
    SumSplit(EligibleKeys(t, u), Keys(u, Ids(nodes)), ValueColumn(t.leaves));
    SumNonNegative(EligibleKeys(t, u) - Keys(u, Ids(nodes)), ValueColumn(t.leaves));
  }

  lemma PrefixLists(t: Tables, op: Op, p: seq<SlimLeaf>)
    requires op.TryReserve? && AnswersSlim(t, op.user, SlimBound(op.target), op.rows) && p <= op.rows
    ensures Lists(t, op.user, Keys(op.user, SlimIds(p)), p)
    ensures forall id :: id in IdsOf(p) <==> id in SlimIds(p)
  {
    forall l | l in p ensures l in op.rows {
    }
    forall i, j | 0 <= i < j < |p| ensures IdsOf(p)[i] != IdsOf(p)[j] {
      assert IdsOf(op.rows)[i] != IdsOf(op.rows)[j];
    }
    forall id | id in SlimIds(p) ensures id in IdsOf(p) {
      var i :| 0 <= i < |p| && p[i].id == id;
      assert IdsOf(p)[i] == id;
    }
  }
}

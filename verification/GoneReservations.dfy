/** Finalizing a reservation that is gone. The statement that deletes the leaves naming it still
    takes effect, but nothing marks them spent and nothing deletes their chains. */
module GoneReservations {
  import opened Base
  import opened TreeTables
  import opened LeafSelection
  import opened TreeOps
  import opened TreeInvariants
  import opened TreeRefresh

  /** The leaves a finalize brings in. */
  function Incoming(op: Op): set<Id>
    requires op.Finalize?
  {
    if op.newLeaves.Some? then Ids(op.newLeaves.value) else {}
  }

  /** Which leaves a finalize leaves in the pool. */
  lemma FinalizedKeys(t: Tables, op: Op, k: Key)
    requires op.Finalize?
    ensures k in Finalized(t, op).leaves <==>
      (k in t.leaves && k !in Keys(op.user, HeldBy(t, op.user, op.rid))) || k in Keys(op.user, Incoming(op))
  {}

  /** Which markers it leaves. */
  lemma FinalizedMarks(t: Tables, op: Op, k: Key)
    requires op.Finalize?
    ensures k in Finalized(t, op).spent <==>
      k in t.spent || (IsLive(t, op.user, op.rid) && k in Keys(op.user, HeldBy(t, op.user, op.rid)))
  {}

  /** Every leaf a finalize removes is marked spent. */
  ghost predicate RemovesOnlyMarked(t: Tables, t': Tables)
  {
    forall k :: k in t.leaves && k !in t'.leaves ==> k in t'.spent
  }

  /** A finalize marks every leaf it removes exactly when the reservation is there, or each leaf
      that still names it, and is not brought in again, carries a marker already. */
  lemma FinalizeMarksIff(t: Tables, op: Op)
    requires op.Finalize?
    ensures RemovesOnlyMarked(t, Finalized(t, op)) <==>
      (IsLive(t, op.user, op.rid)
       || forall id :: id in HeldBy(t, op.user, op.rid) - Incoming(op) ==> Key(op.user, id) in t.spent)
  {
    var u, t' := op.user, Finalized(t, op);
    forall k ensures k in t.leaves && k !in t'.leaves <==> k in Keys(u, HeldBy(t, u, op.rid) - Incoming(op)) {
      FinalizedKeys(t, op, k);
    }
    forall k ensures k in t'.spent <==> k in t.spent || (IsLive(t, u, op.rid) && k in Keys(u, HeldBy(t, u, op.rid))) {
      FinalizedMarks(t, op, k);
    }
    if RemovesOnlyMarked(t, t') && !IsLive(t, u, op.rid) {
      forall id | id in HeldBy(t, u, op.rid) - Incoming(op) ensures Key(u, id) in t.spent {
        assert Key(u, id) in Keys(u, HeldBy(t, u, op.rid) - Incoming(op));
      }
    }
  }

  lemma FinalizedChains(t: Tables, op: Op)
    requires op.Finalize?
    ensures Finalized(t, op).chains == if IsLive(t, op.user, op.rid)
      then ChainsWithout(t.chains, op.user, HeldBy(t, op.user, op.rid)) else t.chains
  {
    assert ChainsWithout(t.chains, op.user, {}) == t.chains;
  }

  /** A finalize leaves no chain without its leaf exactly when the reservation is there, or no leaf
      that still names it, and is not brought in again, has a chain. */
  lemma FinalizeKeepsChainsOwnedIff(t: Tables, op: Op)
    requires op.Finalize? && ChainsOwned(t)
    ensures ChainsOwned(Finalized(t, op)) <==>
      (IsLive(t, op.user, op.rid)
       || forall c :: c in t.chains && c.user == op.user ==> c.leaf !in HeldBy(t, op.user, op.rid) - Incoming(op))
  {
    var u, t', gone := op.user, Finalized(t, op), HeldBy(t, op.user, op.rid) - Incoming(op);
    FinalizedChains(t, op);
    forall c | c in t'.chains
      ensures Key(c.user, c.leaf) in t'.leaves <==> !(c.user == u && c.leaf in gone)
    {
      FinalizedKeys(t, op, Key(c.user, c.leaf));
    }
    if ChainsOwned(t') && !IsLive(t, u, op.rid) {
      forall c | c in t.chains && c.user == u ensures c.leaf !in gone {
        assert c in t'.chains;
      }
    }
  }

  /** A leaf out of the pool without a marker comes back when and only when a refresh proceeds and
      lists it, whenever that refresh began. */
  lemma UnmarkedComesBackIff(fk: bool, t: Tables, op: Op, l: Id)
    requires op.SetLeaves? && Key(op.user, l) !in t.leaves && Key(op.user, l) !in t.spent
    ensures Key(op.user, l) in Refresh(fk, t, op).leaves <==>
      OutcomeOfRefresh(fk, t, op) == Proceeded && l in Ids(op.nodes) + Ids(op.missingNodes)
  {
    var c := CleanedUp(t, op.user, op.releaseAt, op.dropAt);
    match OutcomeOfRefresh(fk, t, op) {
      case Failed =>
      case Skipped =>
      case Proceeded =>
        RefreshExactly(c, op, Key(op.user, l));
        assert l !in RecentlySpent(c, op.user, op.start);
    }
  }

  // ----- how it comes about --------------------------------------------------------------------------

  /** One available leaf with its chain. */
  function OneLeaf(u: User, leaf: TreeNode, parent: TreeNode): Tables
  {
    EMPTY.(leaves := map[Key(u, leaf.id) := RowOf(leaf, false, None, 0)],
           chains := map[ChainKey(u, leaf.id, parent.id) := parent])
  }

  /** Without foreign keys: a payment reserves a leaf at 0, a refresh releases at the timeout itself
      and deletes a microsecond later, and the payment is finalized. */
  function ReserveThat(u: User, leaf: TreeNode, rid: ReservationId): Op { ReserveByIds(u, rid, [leaf.id], Payment, 0) }

  function RefreshThat(u: User): Op
  {
    var at := (id: Id) => RESERVATION_TIMEOUT + 1;
    SetLeaves(u, [], [], 0, RESERVATION_TIMEOUT, RESERVATION_TIMEOUT + 1, at, at)
  }

  function FinalizeThat(u: User, rid: ReservationId): Op
  {
    var now := RESERVATION_TIMEOUT + 2;
    Finalize(u, rid, None, now, (id: Id) => now, now)
  }

  lemma Reserved(u: User, leaf: TreeNode, parent: TreeNode, rid: ReservationId, t: Tables, t1: Tables)
    requires leaf.status == Available && t == OneLeaf(u, leaf, parent)
      && t1 == ReservedByIds(t, ReserveThat(u, leaf, rid))
    ensures Enabled(t, ReserveThat(u, leaf, rid)) && Inv(t, 0)
    ensures t1.leaves == map[Key(u, leaf.id) := RowOf(leaf, false, Some(rid), 0)] && t1.chains == t.chains
    ensures t1.reservations == map[Key(u, rid) := Reservation(Payment, 0, 0)] && t1.spent == map[] && t1.swaps == map[]
  {
    var ids, row := [leaf.id], RowOf(leaf, false, None, 0);
    assert t.leaves[Key(u, leaf.id)] == row && ReservableIds(t, u, ids);
    var nodes := ResolveFull(t, u, ids).value;
    assert nodes == [leaf];
    assert leaf in nodes && Ids(nodes) == {leaf.id};
  }

  lemma Proceeds(t: Tables, op: Op, c: Tables)
    requires op.SetLeaves? && c == CleanedUp(t, op.user, op.releaseAt, op.dropAt) && !Blocked(c, op.user, op.start)
    ensures Refresh(false, t, op)
      == Refreshed(c, op.user, op.nodes, op.missingNodes, op.start, op.at, op.atMissing)
  {}

  lemma DeletedUnderLeaf(u: User, leaf: TreeNode, rid: ReservationId, t1: Tables, c: Tables)
    requires t1.leaves == map[Key(u, leaf.id) := RowOf(leaf, false, Some(rid), 0)] && t1.swaps == map[]
    requires t1.reservations == map[Key(u, rid) := Reservation(Payment, 0, 0)]
    requires c == CleanedUp(t1, u, RESERVATION_TIMEOUT, RESERVATION_TIMEOUT + 1)
    ensures c.reservations == map[] && c.swaps == map[] && c.leaves == t1.leaves && c.spent == t1.spent
      && c.chains == t1.chains
    ensures !Blocked(c, u, 0)
  {}

  lemma DropsNothing(c: Tables, t2: Tables, u: User, op: Op)
    requires op == RefreshThat(u) && c.spent == map[] && (forall k :: k in c.leaves ==> c.leaves[k].reservation.Some?)
    requires t2 == Refreshed(c, u, op.nodes, op.missingNodes, op.start, op.at, op.atMissing)
    ensures t2.reservations == c.reservations && t2.spent == map[] && t2.chains == c.chains && t2.swaps == c.swaps
    ensures forall k :: k in c.leaves ==> RowAt(t2, k) == Some(c.leaves[k])
  {
    forall k | k in c.leaves ensures RowAt(t2, k) == Some(c.leaves[k]) {
      RefreshExactly(c, op, k);
    }
    var t := DropOldMarkers(c, u, op.start - SPENT_MARKER_CLEANUP_THRESHOLD);
    assert StaleLeaves(t, u, op.start) == {};
    assert ChainsWithout(c.chains, u, {}) == c.chains;
    assert {} - (Ids(op.nodes) + Ids(op.missingNodes)) == {};
  }

  /** The finalize then takes the leaf out unmarked and leaves its chain behind, and the next refresh
      that lists the leaf, whenever it began, puts a spent leaf back. */
  lemma FinalizeAfterTimeoutLosesMark(u: User, leaf: TreeNode, parent: TreeNode, rid: ReservationId, refresh: Op)
    requires leaf.status == Available && refresh.SetLeaves? && refresh.user == u && leaf.id in Ids(refresh.nodes)
    ensures var t := OneLeaf(u, leaf, parent);
      var t1 := ReservedByIds(t, ReserveThat(u, leaf, rid));
      var t2 := Refresh(false, t1, RefreshThat(u));
      var t3 := Finalized(t2, FinalizeThat(u, rid));
      && Inv(t, 0) && !IsLive(t2, u, rid) && leaf.id in HeldBy(t2, u, rid)
      && Key(u, leaf.id) !in t3.leaves && Key(u, leaf.id) !in t3.spent && !ChainsOwned(t3)
      && Key(u, leaf.id) in Refresh(false, t3, refresh).leaves
  {
    var op := FinalizeThat(u, rid);
    var t := OneLeaf(u, leaf, parent);
    var t1 := ReservedByIds(t, ReserveThat(u, leaf, rid));
    var t2 := Refresh(false, t1, RefreshThat(u));
    var t3 := Finalized(t2, op);
    Reserved(u, leaf, parent, rid, t, t1);
    var c := CleanedUp(t1, u, RESERVATION_TIMEOUT, RESERVATION_TIMEOUT + 1);
    DeletedUnderLeaf(u, leaf, rid, t1, c);
    Proceeds(t1, RefreshThat(u), c);
    DropsNothing(c, t2, u, RefreshThat(u));
    Lost(u, leaf, parent, t2, op);
    NothingBlocks(t3, refresh);
    UnmarkedComesBackIff(false, t3, refresh, leaf.id);
  }

  lemma NothingBlocks(t: Tables, op: Op)
    requires op.SetLeaves? && t.reservations == map[] && t.swaps == map[]
    ensures OutcomeOfRefresh(false, t, op) == Proceeded
  {}

  lemma Lost(u: User, leaf: TreeNode, parent: TreeNode, t2: Tables, op: Op)
    requires op.Finalize? && op.user == u && op.newLeaves.None? && t2.reservations == map[] && t2.spent == map[]
    requires RowAt(t2, Key(u, leaf.id)) == Some(RowOf(leaf, false, Some(op.rid), 0))
    requires t2.chains == map[ChainKey(u, leaf.id, parent.id) := parent]
    ensures leaf.id in HeldBy(t2, u, op.rid) && Key(u, leaf.id) !in Finalized(t2, op).leaves
    ensures Finalized(t2, op).reservations == map[] && Finalized(t2, op).swaps == t2.swaps
    ensures Key(u, leaf.id) !in Finalized(t2, op).spent && !ChainsOwned(Finalized(t2, op))
  {
    var k, t3 := Key(u, leaf.id), Finalized(t2, op);
    FinalizedKeys(t2, op, k);
    FinalizedMarks(t2, op, k);
    FinalizedChains(t2, op);
    assert ChainKey(u, leaf.id, parent.id) in t3.chains;
  }
}

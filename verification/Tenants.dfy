/** Tenants share the tables and never see each other: what one tenant's rows become, and what
    its reads answer, does not depend on any other tenant's steps. */
module Tenants {
  import opened Base
  import opened TreeTables
  import opened LeafSelection
  import opened TreeOps
  import opened TreeRefresh
  import opened TreeBalance
  import opened ExitChains

  // ----- two databases alike for one tenant ----------------------------------------------------

  ghost predicate SameLeaves(a: map<Key, LeafRow>, b: map<Key, LeafRow>, u: User)
  {
    forall k: Key :: k.user == u ==> (k in a <==> k in b) && (k in a && k in b ==> a[k] == b[k])
  }

  ghost predicate SameReservations(a: map<Key, Reservation>, b: map<Key, Reservation>, u: User)
  {
    forall k: Key :: k.user == u ==> (k in a <==> k in b) && (k in a && k in b ==> a[k] == b[k])
  }

  ghost predicate SameSpent(a: map<Key, Time>, b: map<Key, Time>, u: User)
  {
    forall k: Key :: k.user == u ==> (k in a <==> k in b) && (k in a && k in b ==> a[k] == b[k])
  }

  ghost predicate SameChains(a: map<ChainKey, TreeNode>, b: map<ChainKey, TreeNode>, u: User)
  {
    forall c: ChainKey :: c.user == u ==> (c in a <==> c in b) && (c in a && c in b ==> a[c] == b[c])
  }

  ghost predicate SameSwap(a: map<User, Time>, b: map<User, Time>, u: User)
  {
    (u in a <==> u in b) && (u in a && u in b ==> a[u] == b[u])
  }

  /** Every row of the tenant is in both, with the same columns. */
  ghost predicate Alike(a: Tables, b: Tables, u: User)
  {
    && SameLeaves(a.leaves, b.leaves, u)
    && SameReservations(a.reservations, b.reservations, u)
    && SameSpent(a.spent, b.spent, u)
    && SameChains(a.chains, b.chains, u)
    && SameSwap(a.swaps, b.swaps, u)
  }

  // ----- what the statements read ----------------------------------------------------------------

  lemma HeldAlike(a: Tables, b: Tables, u: User, rid: ReservationId)
    requires SameLeaves(a.leaves, b.leaves, u)
    ensures HeldBy(a, u, rid) == HeldBy(b, u, rid)
  {
    forall id ensures id in HeldBy(a, u, rid) <==> id in HeldBy(b, u, rid) {
      assert Key(u, id) in a.leaves <==> Key(u, id) in b.leaves;
    }
  }

  lemma StaleAlike(a: Tables, b: Tables, u: User, start: Time)
    requires SameLeaves(a.leaves, b.leaves, u)
    ensures StaleLeaves(a, u, start) == StaleLeaves(b, u, start)
  {
    forall id ensures id in StaleLeaves(a, u, start) <==> id in StaleLeaves(b, u, start) {
      assert Key(u, id) in a.leaves <==> Key(u, id) in b.leaves;
    }
  }

  lemma RecentlySpentAlike(a: Tables, b: Tables, u: User, start: Time)
    requires SameSpent(a.spent, b.spent, u)
    ensures RecentlySpent(a, u, start) == RecentlySpent(b, u, start)
  {
    forall id ensures id in RecentlySpent(a, u, start) <==> id in RecentlySpent(b, u, start) {
      assert Key(u, id) in a.spent <==> Key(u, id) in b.spent;
    }
  }

  lemma BlockedAlike(a: Tables, b: Tables, u: User, start: Time)
    requires Alike(a, b, u)
    ensures Blocked(a, u, start) <==> Blocked(b, u, start)
  {
    assert HasActiveSwap(a, u) <==> HasActiveSwap(b, u) by {
      if k :| k in a.reservations && k.user == u && a.reservations[k].purpose == Swap {
        assert k in b.reservations;
      }
      if k :| k in b.reservations && k.user == u && b.reservations[k].purpose == Swap {
        assert k in a.reservations;
      }
    }
  }

  lemma ResolveAlike(a: Tables, b: Tables, u: User, ids: seq<Id>)
    requires SameLeaves(a.leaves, b.leaves, u)
    ensures ResolveFull(a, u, ids) == ResolveFull(b, u, ids)
    ensures ReservableIds(a, u, ids) <==> ReservableIds(b, u, ids)
  {
    forall id | id in ids ensures Key(u, id) in a.leaves <==> Key(u, id) in b.leaves {
    }
    if ResolveFull(a, u, ids).Some? {
      assert ResolveFull(a, u, ids).value == ResolveFull(b, u, ids).value;
    }
  }

  lemma EligibleAlike(a: Tables, b: Tables, u: User)
    requires SameLeaves(a.leaves, b.leaves, u)
    ensures EligibleKeys(a, u) == EligibleKeys(b, u) && EligibleTotal(a, u) == EligibleTotal(b, u)
  {
    SumSame(EligibleKeys(a, u), ValueColumn(a.leaves), ValueColumn(b.leaves));
  }

  lemma PendingAlike(a: Tables, b: Tables, u: User)
    requires SameReservations(a.reservations, b.reservations, u)
    ensures PendingTotal(a, u) == PendingTotal(b, u)
  {
    assert UserReservations(a, u) == UserReservations(b, u);
    SumSame(UserReservations(a, u), PendingColumn(a.reservations), PendingColumn(b.reservations));
  }

  lemma {:induction false} StorableAlike(a: Tables, b: Tables, u: User, ps: seq<Pedigree>)
    requires SameLeaves(a.leaves, b.leaves, u)
    ensures Storable(a, u, ps) == Storable(b, u, ps)
    decreases ps
  {
    if ps != [] {
      assert Key(u, ps[0].leaf.id) in a.leaves <==> Key(u, ps[0].leaf.id) in b.leaves;
      StorableAlike(a, b, u, ps[1..]);
    }
  }

  // ----- statements: alike before, alike after -----------------------------------------------------

  lemma UpsertAlike(a: Tables, b: Tables, u: User, nodes: seq<TreeNode>, missing: bool, at: Id -> Time)
    requires Alike(a, b, u)
    ensures Alike(UpsertLeaves(a, u, nodes, missing, at), UpsertLeaves(b, u, nodes, missing, at), u)
  {}

  lemma DeleteChainsAlike(a: Tables, b: Tables, u: User, ids: set<Id>)
    requires Alike(a, b, u)
    ensures Alike(DeleteChains(a, u, ids), DeleteChains(b, u, ids), u)
  {}

  lemma CleanedUpAlike(a: Tables, b: Tables, u: User, releaseAt: Time, dropAt: Time)
    requires Alike(a, b, u)
    ensures Alike(CleanedUp(a, u, releaseAt, dropAt), CleanedUp(b, u, releaseAt, dropAt), u)
  {
    forall k | k in a.leaves && k.user == u && a.leaves[k].reservation.Some?
      ensures Key(u, a.leaves[k].reservation.value) in a.reservations <==>
        Key(u, a.leaves[k].reservation.value) in b.reservations
    {
    }
  }

  lemma {:induction false} InsertChainsAlike(a: Tables, b: Tables, u: User, rows: seq<ChainRow>)
    requires Alike(a, b, u)
    ensures Alike(InsertChains(a, u, rows), InsertChains(b, u, rows), u)
    decreases rows
  {
    if rows != [] {
      var c := ChainKeyOf(u, rows[0]);
      InsertChainsAlike(a.(chains := a.chains[c := rows[0].node]),
        b.(chains := b.chains[c := rows[0].node]), u, rows[1..]);
    }
  }

  lemma WithoutStaleAlike(a: Tables, b: Tables, u: User, start: Time, reported: set<Id>)
    requires Alike(a, b, u)
    ensures Alike(WithoutStale(a, u, start, reported), WithoutStale(b, u, start, reported), u)
  {
    StaleAlike(a, b, u, start);
    var stale := StaleLeaves(a, u, start);
    DeleteChainsAlike(DeleteLeaves(a, Keys(u, stale)), DeleteLeaves(b, Keys(u, stale)), u, stale - reported);
  }

  lemma RefreshedAlike(a: Tables, b: Tables, u: User, nodes: seq<TreeNode>, missingNodes: seq<TreeNode>, start: Time,
                       at: Id -> Time, atMissing: Id -> Time)
    requires Alike(a, b, u)
    ensures Alike(Refreshed(a, u, nodes, missingNodes, start, at, atMissing),
                  Refreshed(b, u, nodes, missingNodes, start, at, atMissing), u)
  {
    var cutoff := start - SPENT_MARKER_CLEANUP_THRESHOLD;
    var a1, b1 := DropOldMarkers(a, u, cutoff), DropOldMarkers(b, u, cutoff);
    RecentlySpentAlike(a1, b1, u, start);
    var spentIds := RecentlySpent(a1, u, start);
    var reported := Ids(nodes) + Ids(missingNodes);
    WithoutStaleAlike(a1, b1, u, start, reported);
    var a2, b2 := WithoutStale(a1, u, start, reported), WithoutStale(b1, u, start, reported);
    var kept, keptMissing := Without(nodes, spentIds), Without(missingNodes, spentIds);
    UpsertAlike(a2, b2, u, kept, false, at);
    UpsertAlike(UpsertLeaves(a2, u, kept, false, at), UpsertLeaves(b2, u, kept, false, at), u, keptMissing,
      true, atMissing);
  }

  lemma CreateReservationAlike(a: Tables, b: Tables, u: User, rid: ReservationId, ids: set<Id>, purpose: Purpose,
                               pending: U64, now: Time)
    requires Alike(a, b, u)
    ensures Alike(CreateReservation(a, u, rid, ids, purpose, pending, now),
      CreateReservation(b, u, rid, ids, purpose, pending, now), u)
  {}

  lemma SpendAlike(a: Tables, b: Tables, u: User, rid: ReservationId, held: set<Id>, at: Time)
    requires Alike(a, b, u)
    ensures Alike(Spend(a, u, rid, held, at), Spend(b, u, rid, held, at), u)
  {
    HeldAlike(a, b, u, rid);
  }

  lemma SettledAlike(a: Tables, b: Tables, u: User, rid: ReservationId, at: Time)
    requires Alike(a, b, u)
    ensures Alike(Settled(a, u, rid, at), Settled(b, u, rid, at), u)
  {
    HeldAlike(a, b, u, rid);
    assert IsLive(a, u, rid) <==> IsLive(b, u, rid);
    var held := if IsLive(a, u, rid) then HeldBy(a, u, rid) else {};
    SpendAlike(a, b, u, rid, held, at);
    DeleteReservationAlike(Spend(a, u, rid, held, at), Spend(b, u, rid, held, at), u, rid);
  }

  lemma DeleteReservationAlike(a: Tables, b: Tables, u: User, rid: ReservationId)
    requires Alike(a, b, u)
    ensures Alike(DeleteReservation(a, u, rid), DeleteReservation(b, u, rid), u)
  {}

  // ----- operations --------------------------------------------------------------------------------

  lemma OutcomeAlike(fk: bool, a: Tables, b: Tables, op: Op)
    requires op.SetLeaves? && Alike(a, b, op.user)
    ensures OutcomeOfRefresh(fk, a, op) == OutcomeOfRefresh(fk, b, op)
  {
    var u := op.user;
    var c, d := CleanedUp(a, u, op.releaseAt, op.dropAt), CleanedUp(b, u, op.releaseAt, op.dropAt);
    CleanedUpAlike(a, b, u, op.releaseAt, op.dropAt);
    BlockedAlike(c, d, u, op.start);
    DanglingAlike(c, d, u);
  }

  lemma DanglingAlike(a: Tables, b: Tables, u: User)
    requires Alike(a, b, u)
    ensures NoDangling(a, u) <==> NoDangling(b, u)
  {
    if NoDangling(a, u) {
      forall k | k in b.leaves && k.user == u && b.leaves[k].reservation.Some?
        ensures Key(u, b.leaves[k].reservation.value) in b.reservations
      {
        assert k in a.leaves;
      }
    }
  }

  lemma SetLeavesAlike(fk: bool, a: Tables, b: Tables, op: Op)
    requires op.SetLeaves? && Alike(a, b, op.user)
    ensures Alike(Refresh(fk, a, op), Refresh(fk, b, op), op.user)
  {
    OutcomeAlike(fk, a, b, op);
    var c, d := CleanedUp(a, op.user, op.releaseAt, op.dropAt), CleanedUp(b, op.user, op.releaseAt, op.dropAt);
    match OutcomeOfRefresh(fk, a, op) {
      case Failed =>
      case Skipped =>
        CleanedUpAlike(a, b, op.user, op.releaseAt, op.dropAt);
      case Proceeded =>
        CleanedUpAlike(a, b, op.user, op.releaseAt, op.dropAt);
        RefreshedAlike(c, d, op.user, op.nodes, op.missingNodes, op.start, op.at, op.atMissing);
    }
  }

  lemma CancelledAlike(a: Tables, b: Tables, op: Op)
    requires op.Cancel? && Alike(a, b, op.user)
    ensures Alike(Cancelled(a, op), Cancelled(b, op), op.user)
  {
    var u := op.user;
    HeldAlike(a, b, u, op.rid);
    var held := HeldBy(a, u, op.rid);
    DeleteChainsAlike(a, b, u, held - Ids(op.keep));
    var a1 := DeleteReservation(DeleteLeaves(DeleteChains(a, u, held - Ids(op.keep)), Keys(u, held)), u, op.rid);
    var b1 := DeleteReservation(DeleteLeaves(DeleteChains(b, u, held - Ids(op.keep)), Keys(u, held)), u, op.rid);
    UpsertAlike(a1, b1, u, op.keep, false, op.at);
  }

  lemma FinalizedAlike(a: Tables, b: Tables, op: Op)
    requires op.Finalize? && Alike(a, b, op.user)
    ensures Alike(Finalized(a, op), Finalized(b, op), op.user)
  {
    var u := op.user;
    SettledAlike(a, b, u, op.rid, op.spentAt);
    if op.newLeaves.Some? {
      UpsertAlike(Settled(a, u, op.rid, op.spentAt), Settled(b, u, op.rid, op.spentAt), u,
        op.newLeaves.value, false, op.at);
      assert IsSwap(a, u, op.rid) <==> IsSwap(b, u, op.rid);
    }
  }

  lemma ReplacedAlike(a: Tables, b: Tables, op: Op)
    requires op.Update? && Alike(a, b, op.user) && IsLive(a, op.user, op.rid) && IsLive(b, op.user, op.rid)
    ensures Alike(Replaced(a, op), Replaced(b, op), op.user)
  {
    var u := op.user;
    UpsertAlike(a, b, u, op.change, false, op.atChange);
    var a1, b1 := UpsertLeaves(a, u, op.change, false, op.atChange), UpsertLeaves(b, u, op.change, false, op.atChange);
    UpsertAlike(a1, b1, u, op.reserved, false, op.atReserved);
  }

  lemma UpdatedAlike(a: Tables, b: Tables, op: Op)
    requires op.Update? && Alike(a, b, op.user)
    ensures Alike(Updated(a, op), Updated(b, op), op.user)
  {
    var u := op.user;
    assert IsLive(a, u, op.rid) <==> IsLive(b, u, op.rid);
    if IsLive(a, u, op.rid) {
      HeldAlike(a, b, u, op.rid);
      SpendAlike(a, b, u, op.rid, HeldBy(a, u, op.rid), op.spentAt);
      ReplacedAlike(Spend(a, u, op.rid, HeldBy(a, u, op.rid), op.spentAt),
        Spend(b, u, op.rid, HeldBy(b, u, op.rid), op.spentAt), op);
    }
  }

  lemma StoreChainsAlike(a: Tables, b: Tables, u: User, ps: seq<Pedigree>)
    requires Alike(a, b, u)
    ensures Alike(StoreChains(a, u, ps), StoreChains(b, u, ps), u)
  {
    StorableAlike(a, b, u, ps);
    var live := Storable(a, u, ps);
    DeleteChainsAlike(a, b, u, LeafIds(live));
    InsertChainsAlike(DeleteChains(a, u, LeafIds(live)), DeleteChains(b, u, LeafIds(live)), u, ChainRows(live));
  }

  lemma TryReservedAlike(a: Tables, b: Tables, op: Op)
    requires op.TryReserve? && Alike(a, b, op.user)
    ensures Alike(TryReserved(a, op), TryReserved(b, op), op.user)
    ensures DecisionOf(a, op) == DecisionOf(b, op)
  {
    var u := op.user;
    EligibleAlike(a, b, u);
    PendingAlike(a, b, u);
    var d := DecisionOf(a, op);
    assert IsLive(a, u, op.rid) <==> IsLive(b, u, op.rid);
    if d.Reserve? {
      ResolveAlike(a, b, u, d.ids);
      if ResolveFull(a, u, d.ids).Some? {
        var nodes := ResolveFull(a, u, d.ids).value;
        CreateReservationAlike(a, b, u, op.rid, Ids(nodes), op.purpose,
          PendingChange(nodes, TotalSats(op.target), d.minimum), op.now);
      }
    }
  }

  lemma ReservedByIdsAlike(a: Tables, b: Tables, op: Op)
    requires op.ReserveByIds? && Alike(a, b, op.user)
    ensures Alike(ReservedByIds(a, op), ReservedByIds(b, op), op.user)
  {
    var u := op.user;
    ResolveAlike(a, b, u, op.ids);
    assert IsLive(a, u, op.rid) <==> IsLive(b, u, op.rid);
    if ReservableIds(a, u, op.ids) {
      CreateReservationAlike(a, b, u, op.rid, Ids(ResolveFull(a, u, op.ids).value), op.purpose, 0, op.now);
    }
  }

  lemma AddLeavesAlike(a: Tables, b: Tables, op: Op)
    requires op.AddLeaves? && Alike(a, b, op.user)
    ensures Alike(Apply(false, a, op), Apply(false, b, op), op.user)
  {
    var u := op.user;
    UpsertAlike(UnmarkSpent(a, u, Ids(op.nodes)), UnmarkSpent(b, u, Ids(op.nodes)), u, op.nodes, false, op.at);
  }

  /** A tenant's own step depends on its own rows alone. */
  lemma OwnStep(fk: bool, a: Tables, b: Tables, op: Op)
    requires Alike(a, b, op.user)
    ensures Alike(Apply(fk, a, op), Apply(fk, b, op), op.user)
  {
    match op {
      case AddLeaves(_, _, _) => AddLeavesAlike(a, b, op);
      case StoreAncestors(u, ps) => StoreChainsAlike(a, b, u, ps);
      case SetLeaves(_, _, _, _, _, _, _, _) => SetLeavesAlike(fk, a, b, op);
      case Cancel(_, _, _, _) => CancelledAlike(a, b, op);
      case Finalize(_, _, _, _, _, _) => FinalizedAlike(a, b, op);
      case TryReserve(_, _, _, _, _, _, _) => TryReservedAlike(a, b, op);
      case ReserveByIds(_, _, _, _, _) => ReservedByIdsAlike(a, b, op);
      case Update(_, _, _, _, _, _, _) => UpdatedAlike(a, b, op);
    }
  }

  // ----- other tenants' steps ------------------------------------------------------------------------

  lemma {:induction false} InsertChainsElsewhere(t: Tables, u: User, rows: seq<ChainRow>, v: User)
    requires u != v
    ensures Alike(t, InsertChains(t, u, rows), v)
    decreases rows
  {
    if rows != [] {
      InsertChainsElsewhere(t.(chains := t.chains[ChainKeyOf(u, rows[0]) := rows[0].node]), u, rows[1..], v);
    }
  }

  lemma RefreshedElsewhere(c: Tables, u: User, nodes: seq<TreeNode>, missingNodes: seq<TreeNode>, start: Time,
                           at: Id -> Time, atMissing: Id -> Time, v: User)
    requires u != v
    ensures Alike(c, Refreshed(c, u, nodes, missingNodes, start, at, atMissing), v)
  {
    var t1 := DropOldMarkers(c, u, start - SPENT_MARKER_CLEANUP_THRESHOLD);
    var spentIds := RecentlySpent(t1, u, start);
    var t2 := WithoutStale(t1, u, start, Ids(nodes) + Ids(missingNodes));
    assert Alike(c, t2, v);
    PutElsewhere(t2, u, Without(nodes, spentIds), Without(missingNodes, spentIds), at, atMissing, v);
  }

  lemma PutElsewhere(t: Tables, u: User, nodes: seq<TreeNode>, missingNodes: seq<TreeNode>, at: Id -> Time,
                     atMissing: Id -> Time, v: User)
    requires u != v
    ensures Alike(t, PutReported(t, u, nodes, missingNodes, at, atMissing), v)
  {}

  lemma UpsertElsewhere(t: Tables, u: User, nodes: seq<TreeNode>, missing: bool, at: Id -> Time, v: User)
    requires u != v
    ensures Alike(t, UpsertLeaves(t, u, nodes, missing, at), v)
  {}

  lemma CleanedUpElsewhere(t: Tables, u: User, releaseAt: Time, dropAt: Time, v: User)
    requires u != v
    ensures Alike(t, CleanedUp(t, u, releaseAt, dropAt), v)
  {}

  lemma RefreshElsewhere(fk: bool, t: Tables, op: Op, v: User)
    requires op.SetLeaves? && op.user != v
    ensures Alike(t, Refresh(fk, t, op), v)
  {
    var c := CleanedUp(t, op.user, op.releaseAt, op.dropAt);
    match OutcomeOfRefresh(fk, t, op) {
      case Failed =>
        assert Alike(t, t, v);
      case Skipped =>
        CleanedUpElsewhere(t, op.user, op.releaseAt, op.dropAt, v);
      case Proceeded =>
        CleanedUpElsewhere(t, op.user, op.releaseAt, op.dropAt, v);
        RefreshedElsewhere(c, op.user, op.nodes, op.missingNodes, op.start, op.at, op.atMissing, v);
        AlikeThrough(t, c, Refresh(fk, t, op), v);
    }
  }

  lemma SettledElsewhere(t: Tables, u: User, rid: ReservationId, at: Time, v: User)
    requires u != v
    ensures Alike(t, Settled(t, u, rid, at), v)
  {}

  lemma FinalizedElsewhere(t: Tables, op: Op, v: User)
    requires op.Finalize? && op.user != v
    ensures Alike(t, Finalized(t, op), v)
  {
    var t1 := Settled(t, op.user, op.rid, op.spentAt);
    SettledElsewhere(t, op.user, op.rid, op.spentAt, v);
    if op.newLeaves.Some? {
      var t2 := UpsertLeaves(t1, op.user, op.newLeaves.value, false, op.at);
      UpsertElsewhere(t1, op.user, op.newLeaves.value, false, op.at, v);
      AlikeThrough(t, t1, t2, v);
    }
  }

  lemma CancelledElsewhere(t: Tables, op: Op, v: User)
    requires op.Cancel? && op.user != v
    ensures Alike(t, Cancelled(t, op), v)
  {
    var u, held := op.user, HeldBy(t, op.user, op.rid);
    var t1 := DeleteReservation(DeleteLeaves(DeleteChains(t, u, held - Ids(op.keep)), Keys(u, held)), u, op.rid);
    assert Alike(t, t1, v);
    UpsertElsewhere(t1, u, op.keep, false, op.at, v);
    AlikeThrough(t, t1, Cancelled(t, op), v);
  }

  lemma ReplacedElsewhere(t: Tables, op: Op, v: User)
    requires op.Update? && op.user != v && IsLive(t, op.user, op.rid)
    ensures Alike(t, Replaced(t, op), v)
  {
    var u := op.user;
    var t1 := UpsertLeaves(t, u, op.change, false, op.atChange);
    assert Alike(t, t1, v);
    var t2 := UpsertLeaves(t1, u, op.reserved, false, op.atReserved);
    assert Alike(t1, t2, v);
  }

  lemma UpdatedElsewhere(t: Tables, op: Op, v: User)
    requires op.Update? && op.user != v
    ensures Alike(t, Updated(t, op), v)
  {
    if IsLive(t, op.user, op.rid) {
      var t1 := Spend(t, op.user, op.rid, HeldBy(t, op.user, op.rid), op.spentAt);
      assert Alike(t, t1, v);
      ReplacedElsewhere(t1, op, v);
    }
  }

  lemma CreateReservationElsewhere(t: Tables, u: User, rid: ReservationId, ids: set<Id>, purpose: Purpose,
                                   pending: U64, now: Time, v: User)
    requires u != v
    ensures Alike(t, CreateReservation(t, u, rid, ids, purpose, pending, now), v)
  {}

  lemma ReservedElsewhere(t: Tables, op: Op, v: User)
    requires (op.TryReserve? || op.ReserveByIds?) && op.user != v
    ensures Alike(t, Apply(false, t, op), v)
  {
    var u := op.user;
    if op.ReserveByIds? {
      if ReservableIds(t, u, op.ids) {
        CreateReservationElsewhere(t, u, op.rid, Ids(ResolveFull(t, u, op.ids).value), op.purpose, 0, op.now, v);
      }
    } else {
      var d := DecisionOf(t, op);
      if d.Reserve? && ResolveFull(t, u, d.ids).Some? {
        var nodes := ResolveFull(t, u, d.ids).value;
        CreateReservationElsewhere(t, u, op.rid, Ids(nodes), op.purpose,
          PendingChange(nodes, TotalSats(op.target), d.minimum), op.now, v);
      }
    }
  }

  lemma AddedElsewhere(t: Tables, op: Op, v: User)
    requires op.AddLeaves? && op.user != v
    ensures Alike(t, Apply(false, t, op), v)
  {
    var t1 := UnmarkSpent(t, op.user, Ids(op.nodes));
    assert Alike(t, t1, v);
    UpsertElsewhere(t1, op.user, op.nodes, false, op.at, v);
    AlikeThrough(t, t1, Apply(false, t, op), v);
  }

  lemma StoredElsewhere(t: Tables, u: User, ps: seq<Pedigree>, v: User)
    requires u != v
    ensures Alike(t, StoreChains(t, u, ps), v)
  {
    var live := Storable(t, u, ps);
    assert Alike(t, DeleteChains(t, u, LeafIds(live)), v);
    InsertChainsElsewhere(DeleteChains(t, u, LeafIds(live)), u, ChainRows(live), v);
  }

  /** Another tenant's step leaves every row of a tenant as it was. */
  lemma OtherStep(fk: bool, t: Tables, op: Op, v: User)
    requires op.user != v
    ensures Alike(t, Apply(fk, t, op), v)
  {
    match op {
      case AddLeaves(_, _, _) => AddedElsewhere(t, op, v);
      case StoreAncestors(u, ps) => StoredElsewhere(t, u, ps, v);
      case SetLeaves(_, _, _, _, _, _, _, _) => RefreshElsewhere(fk, t, op, v);
      case Cancel(_, _, _, _) => CancelledElsewhere(t, op, v);
      case Finalize(_, _, _, _, _, _) => FinalizedElsewhere(t, op, v);
      case TryReserve(_, _, _, _, _, _, _) => ReservedElsewhere(t, op, v);
      case ReserveByIds(_, _, _, _, _) => ReservedElsewhere(t, op, v);
      case Update(_, _, _, _, _, _, _) => UpdatedElsewhere(t, op, v);
    }
  }

  // ----- runs ----------------------------------------------------------------------------------------

  /** The run without the steps of some tenants. */
  function WithoutTenants(es: seq<Event>, gone: set<User>): seq<Event>
  {
    if es == [] then []
    else if es[0].op.user in gone then WithoutTenants(es[1..], gone)
    else Prepend(es[0], WithoutTenants(es[1..], gone))
  }

  lemma AlikeThrough(a: Tables, b: Tables, c: Tables, u: User)
    requires Alike(a, b, u) && Alike(b, c, u)
    ensures Alike(a, c, u)
  {}

  lemma AlikeBack(a: Tables, b: Tables, u: User)
    requires Alike(a, b, u)
    ensures Alike(b, a, u)
  {}

  /** Taking any other tenants' steps out of a run leaves every row of a tenant as it was. */
  lemma {:induction false} RunWithoutOthers(fk: bool, a: Tables, b: Tables, es: seq<Event>, gone: set<User>, u: User)
    requires Alike(a, b, u) && u !in gone
    ensures Alike(Run(fk, a, es), Run(fk, b, WithoutTenants(es, gone)), u)
    decreases es
  {
    if es != [] {
      var op := es[0].op;
      var a' := Apply(fk, a, op);
      if op.user in gone {
        OtherStep(fk, a, op, u);
        AlikeBack(a, a', u);
        AlikeThrough(a', a, b, u);
        RunWithoutOthers(fk, a', b, es[1..], gone, u);
      } else {
        StepAlike(fk, a, b, op, u);
        RunWithoutOthers(fk, a', Apply(fk, b, op), es[1..], gone, u);
      }
    }
  }

  lemma StepAlike(fk: bool, a: Tables, b: Tables, op: Op, u: User)
    requires Alike(a, b, u)
    ensures Alike(Apply(fk, a, op), Apply(fk, b, op), u)
  {
    if op.user == u {
      OwnStep(fk, a, b, op);
    } else {
      OtherStep(fk, a, op, u);
      OtherStep(fk, b, op, u);
      AlikeBack(a, Apply(fk, a, op), u);
      AlikeThrough(Apply(fk, a, op), a, b, u);
      AlikeThrough(Apply(fk, a, op), b, Apply(fk, b, op), u);
    }
  }

  // ----- reads and valid runs ------------------------------------------------------------------------

  lemma ClassesAlike(a: Tables, b: Tables, u: User)
    requires Alike(a, b, u)
    ensures CountedKeys(a, u) == CountedKeys(b, u)
    ensures forall c :: ClassKeys(a, u, c) == ClassKeys(b, u, c)
  {
    forall k: Key | k.user == u && k in a.leaves ensures k in b.leaves && PurposeOf(a, k) == PurposeOf(b, k) {
    }
    forall k: Key | k.user == u && k in b.leaves ensures k in a.leaves {
    }
    forall c: Class ensures ClassKeys(a, u, c) == ClassKeys(b, u, c) {
    }
  }

  lemma BalancesAlike(a: Tables, b: Tables, u: User)
    requires Alike(a, b, u)
    ensures Balance(a, u) == Balance(b, u)
    ensures forall c :: ClassTotal(a, u, c) == ClassTotal(b, u, c)
  {
    ClassesAlike(a, b, u);
    SumSame(CountedKeys(a, u), ValueColumn(a.leaves), ValueColumn(b.leaves));
    forall c: Class ensures ClassTotal(a, u, c) == ClassTotal(b, u, c) {
      SumSame(ClassKeys(a, u, c), NodeValue(a.leaves), NodeValue(b.leaves));
    }
  }

  lemma MissingAlike(a: Tables, b: Tables, u: User)
    requires Alike(a, b, u)
    ensures MissingChains(a, u) == MissingChains(b, u)
  {
    forall id ensures id in MissingChains(a, u) <==> id in MissingChains(b, u) {
      var k := Key(u, id);
      assert k in a.leaves <==> k in b.leaves;
      if k in a.leaves && a.leaves[k].parent.Some? {
        assert ChainKey(u, id, a.leaves[k].parent.value) in a.chains <==>
          ChainKey(u, id, a.leaves[k].parent.value) in b.chains;
      }
    }
  }

  lemma SmallestOverAlike(a: Tables, b: Tables, u: User, bound: nat, over: Option<Id>)
    requires SameLeaves(a.leaves, b.leaves, u) && EligibleKeys(a, u) == EligibleKeys(b, u)
      && SmallestOver(a, u, bound, over)
    ensures SmallestOver(b, u, bound, over)
  {}

  lemma SlimKeysAlike(a: Tables, b: Tables, u: User, bound: nat, over: Option<Id>)
    requires SameLeaves(a.leaves, b.leaves, u) && EligibleKeys(a, u) == EligibleKeys(b, u)
    ensures (set k | k in a.leaves && IsSlim(a, u, bound, over, k)) ==
      (set k | k in b.leaves && IsSlim(b, u, bound, over, k))
  {}

  lemma ListsAlike(a: Tables, b: Tables, u: User, keys: set<Key>, rows: seq<SlimLeaf>)
    requires SameLeaves(a.leaves, b.leaves, u) && Lists(a, u, keys, rows)
    ensures Lists(b, u, keys, rows)
  {}

  lemma SlimAlike(a: Tables, b: Tables, u: User, bound: nat, rows: seq<SlimLeaf>)
    requires Alike(a, b, u) && AnswersSlim(a, u, bound, rows)
    ensures AnswersSlim(b, u, bound, rows)
  {
    EligibleAlike(a, b, u);
    var over :| SmallestOver(a, u, bound, over)
      && Lists(a, u, (set k | k in a.leaves && IsSlim(a, u, bound, over, k)), rows);
    SmallestOverAlike(a, b, u, bound, over);
    SlimKeysAlike(a, b, u, bound, over);
    ListsAlike(a, b, u, (set k | k in a.leaves && IsSlim(a, u, bound, over, k)), rows);
  }

  lemma EnabledAlike(a: Tables, b: Tables, op: Op)
    requires Alike(a, b, op.user) && Enabled(a, op)
    ensures Enabled(b, op)
  {
    if op.TryReserve? || op.ReserveByIds? {
      HeldAlike(a, b, op.user, op.rid);
      assert IsLive(a, op.user, op.rid) <==> IsLive(b, op.user, op.rid);
    }
    if op.TryReserve? {
      SlimAlike(a, b, op.user, SlimBound(op.target), op.rows);
    }
  }

  /** What is left of a possible run is a possible run. */
  lemma {:induction false} RestIsValid(fk: bool, a: Tables, b: Tables, clock: Time, clock': Time, es: seq<Event>,
                                       gone: set<User>)
    requires ValidRun(fk, a, clock, es) && clock' <= clock
    requires forall u :: u !in gone ==> Alike(a, b, u)
    ensures ValidRun(fk, b, clock', WithoutTenants(es, gone))
    decreases es
  {
    if es != [] {
      var e := es[0];
      var a' := Apply(fk, a, e.op);
      if e.op.user in gone {
        forall u | u !in gone ensures Alike(a', b, u) {
          OtherStep(fk, a, e.op, u);
          AlikeBack(a, a', u);
          AlikeThrough(a', a, b, u);
        }
        RestIsValid(fk, a', b, e.until, clock', es[1..], gone);
      } else {
        forall u | u !in gone ensures Alike(a', Apply(fk, b, e.op), u) {
          StepAlike(fk, a, b, e.op, u);
        }
        EnabledAlike(a, b, e.op);
        RestIsValid(fk, a', Apply(fk, b, e.op), e.until, e.until, es[1..], gone);
      }
    }
  }

  /** Removing all steps of any other tenants from any run leaves a run, and in it every row of a
      tenant and every answer it reads are what they were. */
  lemma TenantsDoNotInterfere(fk: bool, t: Tables, clock: Time, es: seq<Event>, gone: set<User>, u: User)
    requires ValidRun(fk, t, clock, es) && u !in gone
    ensures var alone := WithoutTenants(es, gone);
      var a, b := Run(fk, t, es), Run(fk, t, alone);
      && ValidRun(fk, t, clock, alone)
      && Alike(a, b, u)
      && Balance(a, u) == Balance(b, u)
      && (forall c :: ClassKeys(a, u, c) == ClassKeys(b, u, c))
      && (forall k: Key :: k.user == u ==> RowAt(a, k) == RowAt(b, k))
      && MissingChains(a, u) == MissingChains(b, u)
      && EligibleTotal(a, u) == EligibleTotal(b, u)
      && PendingTotal(a, u) == PendingTotal(b, u)
  {
    RestIsValid(fk, t, t, clock, clock, es, gone);
    RunWithoutOthers(fk, t, t, es, gone, u);
    ReadsAlike(Run(fk, t, es), Run(fk, t, WithoutTenants(es, gone)), u);
  }

  lemma ReadsAlike(a: Tables, b: Tables, u: User)
    requires Alike(a, b, u)
    ensures Balance(a, u) == Balance(b, u)
    ensures forall c :: ClassKeys(a, u, c) == ClassKeys(b, u, c)
    ensures forall k: Key :: k.user == u ==> RowAt(a, k) == RowAt(b, k)
    ensures MissingChains(a, u) == MissingChains(b, u)
    ensures EligibleTotal(a, u) == EligibleTotal(b, u) && PendingTotal(a, u) == PendingTotal(b, u)
  {
    BalancesAlike(a, b, u);
    ClassesAlike(a, b, u);
    MissingAlike(a, b, u);
    EligibleAlike(a, b, u);
    PendingAlike(a, b, u);
  }
}

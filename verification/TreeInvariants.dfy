/** What every operation keeps: chains belong to pooled leaves, no reservation dangles, promoted
    columns agree with the stored node, and a leaf both pooled and marked spent was added after
    the mark. */
module TreeInvariants {
  import opened Base
  import opened TreeTables
  import opened LeafSelection
  import opened TreeOps

  /** Columns promoted out of the stored node agree with it. */
  predicate RowAgrees(id: Id, row: LeafRow)
  {
    row.data.id == id && row.status == row.data.status && row.value == AsI64(row.data.value)
    && row.parent == row.data.parent
  }

  /** A pooled leaf: its columns agree with its node, it was not added in the future, it was put
      back after any spent marker it carries, and the reservation it names exists. */
  predicate LeafOk(t: Tables, clock: Time, k: Key)
    requires k in t.leaves
  {
    var row := t.leaves[k];
    && RowAgrees(k.id, row)
    && row.addedAt <= clock
    && (k in t.spent ==> t.spent[k] <= row.addedAt)
    && (row.reservation.Some? ==> Key(k.user, row.reservation.value) in t.reservations)
  }

  /** Every chain row belongs to a leaf of the pool. */
  ghost predicate ChainsOwned(t: Tables)
  {
    forall c :: c in t.chains ==> Key(c.user, c.leaf) in t.leaves
  }

  ghost predicate PoolInv(t: Tables, clock: Time)
  {
    && (forall k :: k in t.leaves ==> LeafOk(t, clock, k))
    && MarkedBy(t, clock)
  }

  ghost predicate MarkedBy(t: Tables, time: Time)
  {
    forall k :: k in t.spent ==> t.spent[k] <= time
  }

  ghost predicate Inv(t: Tables, clock: Time)
  {
    PoolInv(t, clock) && ChainsOwned(t)
  }

  lemma InvMeansLinked(t: Tables, clock: Time, u: User)
    requires Inv(t, clock)
    ensures NoDangling(t, u)
  {
    forall k | k in t.leaves && k.user == u && t.leaves[k].reservation.Some?
      ensures Key(u, t.leaves[k].reservation.value) in t.reservations
    {
      assert LeafOk(t, clock, k);
    }
  }

  // ----- the two clock readings of the stale cleanup ---------------------------------------------

  /** Every reservation that times out for the delete had already timed out for the release,
      unless it holds nothing. */
  ghost predicate NoneBetween(t: Tables, u: User, releaseAt: Time, dropAt: Time)
  {
    forall k :: k in t.leaves && k.user == u && t.leaves[k].reservation.Some? ==>
      var r := Key(u, t.leaves[k].reservation.value);
      r in t.reservations && TimedOut(t.reservations[r], dropAt) ==> TimedOut(t.reservations[r], releaseAt)
  }

  /** The cleanup reads the clock once to release leaves and once more to delete reservations.
      It leaves no leaf naming a deleted reservation exactly when no holding reservation times
      out between the two readings. */
  lemma CleanupDanglesIffTimeoutBetween(t: Tables, u: User, releaseAt: Time, dropAt: Time)
    requires NoDangling(t, u) && releaseAt <= dropAt
    ensures NoDangling(CleanedUp(t, u, releaseAt, dropAt), u) <==> NoneBetween(t, u, releaseAt, dropAt)
  {
    var c := CleanedUp(t, u, releaseAt, dropAt);
    if NoDangling(c, u) {
      forall k | k in t.leaves && k.user == u && t.leaves[k].reservation.Some?
        ensures var r := Key(u, t.leaves[k].reservation.value);
          r in t.reservations && TimedOut(t.reservations[r], dropAt) ==> TimedOut(t.reservations[r], releaseAt)
      {
        assert k in c.leaves;
      }
    }
  }

  /** A reservation made at 0 has not timed out for the release at the timeout itself, and has for
      the delete a microsecond later: the leaf it holds is left naming it. */
  lemma TimeoutBetweenDangles(u: User, id: Id, rid: ReservationId, row: LeafRow)
    requires row.reservation == Some(rid)
    ensures var t := EMPTY.(leaves := map[Key(u, id) := row], reservations :=
      map[Key(u, rid) := Reservation(Payment, 0, 0)]);
      NoDangling(t, u) && !NoDangling(CleanedUp(t, u, RESERVATION_TIMEOUT, RESERVATION_TIMEOUT + 1), u)
  {
    var t := EMPTY.(leaves := map[Key(u, id) := row], reservations := map[Key(u, rid) := Reservation(Payment, 0, 0)]);
    assert Key(u, id) in t.leaves;
    CleanupDanglesIffTimeoutBetween(t, u, RESERVATION_TIMEOUT, RESERVATION_TIMEOUT + 1);
  }

  /** One clock reading, as PostgreSQL's transaction time gives, never dangles. */
  lemma OneReadingNeverDangles(t: Tables, u: User, now: Time)
    requires NoDangling(t, u)
    ensures NoDangling(CleanedUp(t, u, now, now), u)
  {
    CleanupDanglesIffTimeoutBetween(t, u, now, now);
  }

  /** What a step needs for the reservation links to stay whole: foreign keys, or no reservation
      timing out between the two readings of a refresh's cleanup. */
  ghost predicate Linked(fk: bool, t: Tables, op: Op)
  {
    fk || (op.SetLeaves? ==> NoneBetween(t, op.user, op.releaseAt, op.dropAt))
  }

  ghost predicate LinkedRun(fk: bool, t: Tables, es: seq<Event>)
    decreases es
  {
    es == [] || (Linked(fk, t, es[0].op) && LinkedRun(fk, Apply(fk, t, es[0].op), es[1..]))
  }

  /** With foreign keys every run is linked. */
  lemma {:induction false} ForeignKeysLink(t: Tables, es: seq<Event>)
    ensures LinkedRun(true, t, es)
    decreases es
  {
    if es != [] {
      ForeignKeysLink(Apply(true, t, es[0].op), es[1..]);
    }
  }

  // ----- statements ------------------------------------------------------------------------------

  lemma UpsertKeys(t: Tables, u: User, nodes: seq<TreeNode>, missing: bool, at: Id -> Time)
    ensures UpsertLeaves(t, u, nodes, missing, at).leaves.Keys == t.leaves.Keys + Keys(u, Ids(nodes))
  {}

  lemma UpsertKeepsInv(t: Tables, u: User, nodes: seq<TreeNode>, missing: bool, at: Id -> Time, from: Time, until: Time)
    requires PoolInv(t, until) && MarkedBy(t, from) && forall id :: from <= at(id) <= until
    ensures PoolInv(UpsertLeaves(t, u, nodes, missing, at), until)
    ensures ChainsOwned(t) ==> ChainsOwned(UpsertLeaves(t, u, nodes, missing, at))
  {
    var t' := UpsertLeaves(t, u, nodes, missing, at);
    forall k | k in t'.leaves ensures LeafOk(t', until, k) {
      assert k in t.leaves ==> LeafOk(t, until, k);
    }
  }

  lemma InvLater(t: Tables, clock: Time, clock': Time)
    requires Inv(t, clock) && clock <= clock'
    ensures Inv(t, clock')
  {
    OtherTablesDoNotMatter(t, t, clock, clock');
  }

  lemma SpendKeepsInv(t: Tables, u: User, rid: ReservationId, at: Time, from: Time, until: Time)
    requires Inv(t, from) && from <= at <= until
    ensures Inv(Spend(t, u, rid, HeldBy(t, u, rid), at), until)
    ensures HeldBy(Spend(t, u, rid, HeldBy(t, u, rid), at), u, rid) == {}
  {}

  lemma DeleteReservationKeepsInv(t: Tables, u: User, rid: ReservationId, clock: Time)
    requires Inv(t, clock) && HeldBy(t, u, rid) == {}
    ensures Inv(DeleteReservation(t, u, rid), clock)
  {
    forall k | k in t.leaves && t.leaves[k].reservation == Some(rid) ensures k.user != u {
      assert k.user == u ==> k.id in HeldBy(t, u, rid);
    }
  }

  lemma CreateReservationKeepsInv(t: Tables, u: User, rid: ReservationId, ids: set<Id>, purpose: Purpose,
                                  pending: U64, now: Time, clock: Time)
    requires Inv(t, clock)
    ensures Inv(CreateReservation(t, u, rid, ids, purpose, pending, now), clock)
  {}

  lemma {:induction false} InsertChainsOnlyAdds(t: Tables, u: User, rows: seq<ChainRow>)
    ensures InsertChains(t, u, rows) == t.(chains := InsertChains(t, u, rows).chains)
    ensures forall c :: c in InsertChains(t, u, rows).chains ==>
      c in t.chains || exists r :: r in rows && c == ChainKeyOf(u, r)
    decreases rows
  {
    if rows != [] {
      InsertChainsOnlyAdds(t.(chains := t.chains[ChainKeyOf(u, rows[0]) := rows[0].node]), u, rows[1..]);
    }
  }

  lemma {:induction false} ChainRowsComeFromStorable(t: Tables, u: User, ps: seq<Pedigree>)
    ensures forall r :: r in ChainRows(Storable(t, u, ps)) ==> Key(u, r.leaf) in t.leaves
    decreases ps
  {
    if ps != [] {
      ChainRowsComeFromStorable(t, u, ps[1..]);
      var rest := Storable(t, u, ps[1..]);
      if Key(u, ps[0].leaf.id) in t.leaves && ps[0].ancestors != [] {
        var s := [ps[0]] + rest;
        assert s[1..] == rest;
        assert Storable(t, u, ps) == s;
        assert ChainRows(s) == RowsOf(ps[0].leaf.id, ps[0].ancestors) + ChainRows(rest);
      } else {
        assert Storable(t, u, ps) == rest;
      }
    }
  }

  lemma StoreChainsKeepsInv(t: Tables, u: User, ps: seq<Pedigree>, clock: Time)
    requires Inv(t, clock)
    ensures Inv(StoreChains(t, u, ps), clock)
  {
    var live := Storable(t, u, ps);
    InsertChainsOnlyAdds(DeleteChains(t, u, LeafIds(live)), u, ChainRows(live));
    ChainRowsComeFromStorable(t, u, ps);
  }

  /** A refresh deletes the chains of the stale leaves it does not report, and puts back the
      reported ones it does not skip as spent. The chains stay owned because a stale leaf
      skipped as spent would have been added before its own marker. */
  lemma RefreshedKeepsInv(t: Tables, op: Op, from: Time, until: Time)
    requires op.SetLeaves? && Inv(t, from) && from <= until
    requires forall id :: from <= op.at(id) <= until
    requires forall id :: from <= op.atMissing(id) <= until
    ensures Inv(Refreshed(t, op.user, op.nodes, op.missingNodes, op.start, op.at, op.atMissing), until)
  {
    var u := op.user;
    var t1 := DropOldMarkers(t, u, op.start - SPENT_MARKER_CLEANUP_THRESHOLD);
    var spentIds := RecentlySpent(t1, u, op.start);
    PutBackKeepsInv(t, op, from, until, t1, spentIds);
    RefreshedIs(t, u, op.nodes, op.missingNodes, op.start, op.at, op.atMissing, t1, spentIds);
  }

  lemma PutBackKeepsInv(t: Tables, op: Op, from: Time, until: Time, t1: Tables, spentIds: set<Id>)
    requires op.SetLeaves? && Inv(t, from) && from <= until
    requires forall id :: from <= op.at(id) <= until
    requires forall id :: from <= op.atMissing(id) <= until
    requires t1 == DropOldMarkers(t, op.user, op.start - SPENT_MARKER_CLEANUP_THRESHOLD)
    requires spentIds == RecentlySpent(t1, op.user, op.start)
    ensures var t2 := WithoutStale(t1, op.user, op.start, Ids(op.nodes) + Ids(op.missingNodes));
      var kept, keptMissing := Without(op.nodes, spentIds), Without(op.missingNodes, spentIds);
      Inv(PutReported(t2, op.user, kept, keptMissing, op.at, op.atMissing), until)
  {
    var u, reported := op.user, Ids(op.nodes) + Ids(op.missingNodes);
    var t2 := WithoutStale(t1, u, op.start, reported);
    var t' := PutReported(t2, u, Without(op.nodes, spentIds), Without(op.missingNodes, spentIds), op.at, op.atMissing);
    WithoutStaleKeepsPool(t, t1, u, op.start, reported, from, until);
    PutReportedKeys(t2, u, op.nodes, op.missingNodes, spentIds, op.at, op.atMissing);
    PutReportedKeepsPool(t2, u, Without(op.nodes, spentIds), Without(op.missingNodes, spentIds),
                         op.at, op.atMissing, from, until);
    ChainsStayOwned(t, t1, t2, u, op.start, reported, from, t');
  }

  lemma RefreshedIs(t: Tables, u: User, nodes: seq<TreeNode>, missingNodes: seq<TreeNode>, start: Time,
                    at: Id -> Time, atMissing: Id -> Time, t1: Tables, spentIds: set<Id>)
    requires t1 == DropOldMarkers(t, u, start - SPENT_MARKER_CLEANUP_THRESHOLD)
      && spentIds == RecentlySpent(t1, u, start)
    ensures var t2 := WithoutStale(t1, u, start, Ids(nodes) + Ids(missingNodes));
      Refreshed(t, u, nodes, missingNodes, start, at, atMissing)
        == PutReported(t2, u, Without(nodes, spentIds), Without(missingNodes, spentIds), at, atMissing)
  {}

  lemma ChainsStayOwned(t: Tables, t1: Tables, t2: Tables, u: User, start: Time, reported: set<Id>, from: Time,
                        t': Tables)
    requires Inv(t, from) && t1 == DropOldMarkers(t, u, start - SPENT_MARKER_CLEANUP_THRESHOLD)
    requires t2 == WithoutStale(t1, u, start, reported)
    requires t'.chains == t2.chains
    requires t'.leaves.Keys == t2.leaves.Keys + Keys(u, reported - RecentlySpent(t1, u, start))
    ensures ChainsOwned(t')
  {
    forall c | c in t'.chains ensures Key(c.user, c.leaf) in t'.leaves {
      StaleReportedNotSpent(t, t1, u, start, reported, from, c);
    }
  }

  lemma PutReportedKeepsPool(t: Tables, u: User, nodes: seq<TreeNode>, missingNodes: seq<TreeNode>,
                             at: Id -> Time, atMissing: Id -> Time, from: Time, until: Time)
    requires PoolInv(t, until) && MarkedBy(t, from)
    requires forall id :: from <= at(id) <= until
    requires forall id :: from <= atMissing(id) <= until
    ensures PoolInv(PutReported(t, u, nodes, missingNodes, at, atMissing), until)
  {
    UpsertKeepsInv(t, u, nodes, false, at, from, until);
    UpsertKeepsInv(UpsertLeaves(t, u, nodes, false, at), u, missingNodes, true, atMissing, from, until);
  }

  lemma PutBothKeys(t: Tables, u: User, nodes: seq<TreeNode>, missingNodes: seq<TreeNode>,
                    at: Id -> Time, atMissing: Id -> Time)
    ensures PutReported(t, u, nodes, missingNodes, at, atMissing).leaves.Keys
      == t.leaves.Keys + Keys(u, Ids(nodes) + Ids(missingNodes))
  {
    UpsertKeys(t, u, nodes, false, at);
    UpsertKeys(UpsertLeaves(t, u, nodes, false, at), u, missingNodes, true, atMissing);
  }

  /** Which leaves the pool holds after the reported ones, without the skipped, are put back. */
  lemma PutReportedKeys(t: Tables, u: User, nodes: seq<TreeNode>, missingNodes: seq<TreeNode>, skip: set<Id>,
                        at: Id -> Time, atMissing: Id -> Time)
    ensures PutReported(t, u, Without(nodes, skip), Without(missingNodes, skip), at, atMissing).leaves.Keys
         == t.leaves.Keys + Keys(u, Ids(nodes) + Ids(missingNodes) - skip)
  {
    PutBothKeys(t, u, Without(nodes, skip), Without(missingNodes, skip), at, atMissing);
    WithoutIds(nodes, skip);
    WithoutIds(missingNodes, skip);
    assert Ids(nodes) - skip + (Ids(missingNodes) - skip) == Ids(nodes) + Ids(missingNodes) - skip;
  }

  lemma WithoutStaleKeepsPool(t: Tables, t1: Tables, u: User, start: Time, reported: set<Id>, from: Time, until: Time)
    requires Inv(t, from) && from <= until && t1 == DropOldMarkers(t, u, start - SPENT_MARKER_CLEANUP_THRESHOLD)
    ensures PoolInv(WithoutStale(t1, u, start, reported), until) && MarkedBy(t1, from)
  {
    var t2 := WithoutStale(t1, u, start, reported);
    forall k | k in t2.leaves ensures LeafOk(t2, until, k) {
      assert LeafOk(t, from, k);
    }
  }

  /** The heart of it: the leaf of a chain that outlives the deletes is either still pooled or
      reported and not skipped as spent. */
  lemma StaleReportedNotSpent(t: Tables, t1: Tables, u: User, start: Time, reported: set<Id>, from: Time, c: ChainKey)
    requires Inv(t, from) && t1 == DropOldMarkers(t, u, start - SPENT_MARKER_CLEANUP_THRESHOLD)
    requires c in WithoutStale(t1, u, start, reported).chains
    ensures Key(c.user, c.leaf) in WithoutStale(t1, u, start, reported).leaves
      || (c.user == u && c.leaf in reported && c.leaf !in RecentlySpent(t1, u, start))
  {
    var k := Key(c.user, c.leaf);
    assert k in t.leaves && LeafOk(t, from, k);
  }

  lemma IdsConcat(a: seq<TreeNode>, b: seq<TreeNode>)
    ensures Ids(a + b) == Ids(a) + Ids(b)
  {
    assert forall n :: n in a + b <==> n in a || n in b;
    assert forall n :: n in a || n in b ==> n in a + b && n.id in Ids(a + b);
  }

  /** Without the ordering of marks and additions a refresh strands chains exactly when it reports
      a leaf it also deletes as stale and skips as spent. A clock that goes back between one lock
      holder and the next, as PostgreSQL's transaction time can, produces such a leaf. */
  lemma RefreshStrandsChainsIff(t: Tables, op: Op)
    requires op.SetLeaves? && ChainsOwned(t)
    ensures ChainsOwned(Refreshed(t, op.user, op.nodes, op.missingNodes, op.start, op.at, op.atMissing)) <==>
      forall c :: c in t.chains && c.user == op.user && c.leaf in StaleLeaves(t, op.user, op.start) ==>
        c.leaf !in Ids(op.nodes) + Ids(op.missingNodes) || c.leaf !in RecentlySpent(t, op.user, op.start)
  {
    var u, reported := op.user, Ids(op.nodes) + Ids(op.missingNodes);
    var t1 := DropOldMarkers(t, u, op.start - SPENT_MARKER_CLEANUP_THRESHOLD);
    RecentlySpentUnaffected(t, u, op.start);
    var spentIds := RecentlySpent(t1, u, op.start);
    var t2 := WithoutStale(t1, u, op.start, reported);
    RefreshedIs(t, u, op.nodes, op.missingNodes, op.start, op.at, op.atMissing, t1, spentIds);
    PutReportedKeys(t2, u, op.nodes, op.missingNodes, spentIds, op.at, op.atMissing);
    ChainsOwnedAgainIff(t, t1, t2, u, op.start, reported,
      PutReported(t2, u, Without(op.nodes, spentIds), Without(op.missingNodes, spentIds), op.at, op.atMissing));
  }

  /** Such a clock: the marker was set at 10, yet the transaction that puts the leaf back began, and
      stamps it, at 5. Its chain is stored, and a refresh begun at 7 that reports the leaf deletes it
      as stale, skips it as spent and leaves the chain behind. */
  lemma ClockGoingBackStrandsChains(u: User, leaf: TreeNode, parent: TreeNode, rid: ReservationId, at: Id -> Time)
    ensures var t := EMPTY.(spent := map[Key(u, leaf.id) := 10]);
      var t1 := Cancelled(t, Cancel(u, rid, [leaf], (id: Id) => 5));
      var t2 := StoreChains(t1, u, [Pedigree(leaf, [parent])]);
      Inv(t, 10) && ChainsOwned(t2) && !ChainsOwned(Refreshed(t2, u, [leaf], [], 7, at, at))
  {
    var t := EMPTY.(spent := map[Key(u, leaf.id) := 10]);
    var t1 := Cancelled(t, Cancel(u, rid, [leaf], (id: Id) => 5));
    var t2 := StoreChains(t1, u, [Pedigree(leaf, [parent])]);
    PutBack(t, t1, u, leaf, rid);
    ChainStored(t1, t2, u, leaf, parent);
    RefreshStrands(t2, u, leaf, parent, at);
  }

  lemma RefreshStrands(t2: Tables, u: User, leaf: TreeNode, parent: TreeNode, at: Id -> Time)
    requires t2.leaves.Keys == {Key(u, leaf.id)} && t2.spent == map[Key(u, leaf.id) := 10]
    requires t2.leaves[Key(u, leaf.id)].addedAt == 5 && t2.leaves[Key(u, leaf.id)].reservation.None?
    requires t2.chains == map[ChainKey(u, leaf.id, parent.id) := parent]
    ensures ChainsOwned(t2) && !ChainsOwned(Refreshed(t2, u, [leaf], [], 7, at, at))
  {
    var op := SetLeaves(u, [leaf], [], 7, 7, 7, at, at);
    var c := ChainKey(u, leaf.id, parent.id);
    assert c in t2.chains && c.leaf in StaleLeaves(t2, u, 7) && c.leaf in RecentlySpent(t2, u, 7);
    assert leaf in op.nodes && c.leaf in Ids(op.nodes);
    RefreshStrandsChainsIff(t2, op);
  }

  lemma PutBack(t: Tables, t1: Tables, u: User, leaf: TreeNode, rid: ReservationId)
    requires t == EMPTY.(spent := map[Key(u, leaf.id) := 10])
      && t1 == Cancelled(t, Cancel(u, rid, [leaf], (id: Id) => 5))
    ensures t1.leaves.Keys == {Key(u, leaf.id)} && t1.chains == map[] && t1.spent == t.spent
    ensures t1.leaves[Key(u, leaf.id)].addedAt == 5 && t1.leaves[Key(u, leaf.id)].reservation.None?
  {
    assert leaf in [leaf] && Ids([leaf]) == {leaf.id};
  }

  lemma ChainStored(t1: Tables, t2: Tables, u: User, leaf: TreeNode, parent: TreeNode)
    requires Key(u, leaf.id) in t1.leaves && t1.chains == map[] && t2 == StoreChains(t1, u, [Pedigree(leaf, [parent])])
    ensures t2.leaves == t1.leaves && t2.spent == t1.spent
      && t2.chains == map[ChainKey(u, leaf.id, parent.id) := parent]
  {
    var ps := [Pedigree(leaf, [parent])];
    assert ps[1..] == [];
    assert Storable(t1, u, ps) == ps;
    var row := ChainRow(leaf.id, parent);
    assert ChainRows(ps) == [row] + [] == [row];
    assert [row][1..] == [];
    var d := DeleteChains(t1, u, LeafIds(ps));
    assert d.chains == map[];
    assert InsertChains(d, u, [row]) == d.(chains := d.chains[ChainKeyOf(u, row) := parent]);
  }

  lemma ChainsOwnedAgainIff(t: Tables, t1: Tables, t2: Tables, u: User, start: Time, reported: set<Id>, t': Tables)
    requires ChainsOwned(t) && t1 == DropOldMarkers(t, u, start - SPENT_MARKER_CLEANUP_THRESHOLD)
    requires t2 == WithoutStale(t1, u, start, reported)
    requires t'.chains == t2.chains
    requires t'.leaves.Keys == t2.leaves.Keys + Keys(u, reported - RecentlySpent(t, u, start))
    ensures ChainsOwned(t') <==>
      forall c :: c in t.chains && c.user == u && c.leaf in StaleLeaves(t, u, start) && c.leaf in reported ==>
        c.leaf !in RecentlySpent(t, u, start)
  {
    assert StaleLeaves(t1, u, start) == StaleLeaves(t, u, start);
    if ChainsOwned(t') {
      forall c | c in t.chains && c.user == u && c.leaf in StaleLeaves(t, u, start) && c.leaf in reported
        ensures c.leaf !in RecentlySpent(t, u, start)
      {
        assert c in t'.chains && Key(c.user, c.leaf) in t'.leaves;
        assert Key(c.user, c.leaf) in Keys(u, StaleLeaves(t, u, start));
      }
    } else {
      var c :| c in t'.chains && Key(c.user, c.leaf) !in t'.leaves;
      assert Key(c.user, c.leaf) in t.leaves;
    }
  }

  lemma RecentlySpentUnaffected(t: Tables, u: User, start: Time)
    ensures RecentlySpent(DropOldMarkers(t, u, start - SPENT_MARKER_CLEANUP_THRESHOLD), u, start) ==
      RecentlySpent(t, u, start)
  {
    var t1 := DropOldMarkers(t, u, start - SPENT_MARKER_CLEANUP_THRESHOLD);
    forall id | id in RecentlySpent(t, u, start) ensures id in RecentlySpent(t1, u, start) {
      assert Key(u, id) in t1.spent;
    }
  }

  lemma {:induction false} WithoutIds(nodes: seq<TreeNode>, skip: set<Id>)
    ensures Ids(Without(nodes, skip)) == Ids(nodes) - skip
    decreases nodes
  {
    if nodes != [] {
      WithoutIds(nodes[1..], skip);
      assert nodes == [nodes[0]] + nodes[1..];
      IdsConcat([nodes[0]], nodes[1..]);
      IdsConcat(if nodes[0].id in skip then [] else [nodes[0]], Without(nodes[1..], skip));
    }
  }

  lemma CleanedUpKeepsInv(t: Tables, u: User, releaseAt: Time, dropAt: Time, clock: Time)
    requires Inv(t, clock) && NoDangling(CleanedUp(t, u, releaseAt, dropAt), u)
    ensures Inv(CleanedUp(t, u, releaseAt, dropAt), clock)
  {}

  // ----- operations and runs ---------------------------------------------------------------------

  lemma SettledKeepsInv(t: Tables, u: User, rid: ReservationId, spentAt: Time, from: Time)
    requires Inv(t, from) && from <= spentAt
    ensures Inv(Settled(t, u, rid, spentAt), spentAt)
  {
    UnknownHoldsNothing(t, u, rid, from);
    SpendKeepsInv(t, u, rid, spentAt, from, spentAt);
    DeleteReservationKeepsInv(Spend(t, u, rid, HeldBy(t, u, rid), spentAt), u, rid, spentAt);
  }

  lemma FinalizedKeepsInv(t: Tables, op: Op, from: Time, until: Time)
    requires op.Finalize? && Inv(t, from) && TimesIn(op, from, until)
    ensures Inv(Finalized(t, op), until)
  {
    SettledKeepsInv(t, op.user, op.rid, op.spentAt, from);
    var t1 := Settled(t, op.user, op.rid, op.spentAt);
    InvLater(t1, op.spentAt, until);
    if op.newLeaves.Some? {
      UpsertKeepsInv(t1, op.user, op.newLeaves.value, false, op.at, op.spentAt, until);
      OtherTablesDoNotMatter(UpsertLeaves(t1, op.user, op.newLeaves.value, false, op.at),
        Finalized(t, op), until, until);
    }
  }

  lemma UnknownHoldsNothing(t: Tables, u: User, rid: ReservationId, clock: Time)
    requires Inv(t, clock)
    ensures !IsLive(t, u, rid) ==> HeldBy(t, u, rid) == {}
  {
    if id :| id in HeldBy(t, u, rid) {
      assert LeafOk(t, clock, Key(u, id));
    }
  }

  lemma OtherTablesDoNotMatter(t: Tables, t': Tables, clock: Time, clock': Time)
    requires Inv(t, clock) && clock <= clock'
    requires t'.leaves == t.leaves && t'.spent == t.spent && t'.chains == t.chains
    requires t'.reservations.Keys == t.reservations.Keys
    ensures Inv(t', clock')
  {
    forall k | k in t'.leaves ensures LeafOk(t', clock', k) {
      assert LeafOk(t, clock, k);
    }
  }

  lemma CancelledKeepsInv(t: Tables, op: Op, from: Time, until: Time)
    requires op.Cancel? && Inv(t, from) && from <= until && TimesIn(op, from, until)
    ensures Inv(Cancelled(t, op), until)
  {}

  lemma SetReservationKeepsInv(t: Tables, u: User, ids: set<Id>, rid: ReservationId, clock: Time)
    requires Inv(t, clock) && IsLive(t, u, rid)
    ensures Inv(SetReservation(t, u, ids, rid), clock)
  {
    var t' := SetReservation(t, u, ids, rid);
    forall k | k in t'.leaves ensures LeafOk(t', clock, k) {
      assert LeafOk(t, clock, k);
    }
  }

  lemma UpdatedKeepsInv(t: Tables, op: Op, from: Time, until: Time)
    requires op.Update? && Inv(t, from) && from <= until && TimesIn(op, from, until)
    ensures Inv(Updated(t, op), until)
  {
    if IsLive(t, op.user, op.rid) {
      SpendKeepsInv(t, op.user, op.rid, op.spentAt, from, op.spentAt);
      ReplaceKeepsInv(Spend(t, op.user, op.rid, HeldBy(t, op.user, op.rid), op.spentAt), op, until);
    } else {
      OtherTablesDoNotMatter(t, t, from, until);
    }
  }

  lemma ReplaceKeepsInv(t1: Tables, op: Op, until: Time)
    requires op.Update? && Inv(t1, op.spentAt) && TimesIn(op, op.spentAt, until) && IsLive(t1, op.user, op.rid)
    ensures Inv(Replaced(t1, op), until)
  {
    var u := op.user;
    InvLater(t1, op.spentAt, until);
    UpsertKeepsInv(t1, u, op.change, false, op.atChange, op.spentAt, until);
    var t2 := UpsertLeaves(t1, u, op.change, false, op.atChange);
    UpsertKeepsInv(t2, u, op.reserved, false, op.atReserved, op.spentAt, until);
    var t3 := UpsertLeaves(t2, u, op.reserved, false, op.atReserved);
    SetReservationKeepsInv(t3, u, Ids(op.reserved), op.rid, until);
    OtherTablesDoNotMatter(SetReservation(t3, u, Ids(op.reserved), op.rid), Replaced(t1, op), until, until);
  }

  lemma AddLeavesKeepsInv(t: Tables, op: Op, from: Time, until: Time)
    requires op.AddLeaves? && Inv(t, from) && from <= until && TimesIn(op, from, until)
    ensures Inv(Apply(false, t, op), until)
  {
    var t1 := UnmarkSpent(t, op.user, Ids(op.nodes));
    forall k | k in t1.leaves ensures LeafOk(t1, until, k) {
      assert LeafOk(t, from, k);
    }
    UpsertKeepsInv(t1, op.user, op.nodes, false, op.at, from, until);
  }

  lemma SetLeavesKeepsInv(fk: bool, t: Tables, op: Op, from: Time, until: Time)
    requires op.SetLeaves? && Inv(t, from) && from <= until && TimesIn(op, from, until) && Linked(fk, t, op)
    ensures Inv(Apply(fk, t, op), until)
  {
    InvMeansLinked(t, from, op.user);
    CleanupDanglesIffTimeoutBetween(t, op.user, op.releaseAt, op.dropAt);
    if OutcomeOfRefresh(fk, t, op) == Failed {
      InvLater(t, from, until);
    } else {
      CleanedUpKeepsInv(t, op.user, op.releaseAt, op.dropAt, from);
      var c := CleanedUp(t, op.user, op.releaseAt, op.dropAt);
      InvLater(c, from, until);
      RefreshedKeepsInv(c, op, from, until);
    }
  }

  lemma ReserveKeepsInv(fk: bool, t: Tables, op: Op, from: Time, until: Time)
    requires (op.TryReserve? || op.ReserveByIds?) && Inv(t, from) && from <= until
    ensures Inv(Apply(fk, t, op), until)
  {
    InvLater(t, from, until);
    if op.TryReserve? {
      var d := DecisionOf(t, op);
      if d.Reserve? && ResolveFull(t, op.user, d.ids).Some? {
        var nodes := ResolveFull(t, op.user, d.ids).value;
        CreateReservationKeepsInv(t, op.user, op.rid, Ids(nodes), op.purpose,
                                  PendingChange(nodes, TotalSats(op.target), d.minimum), op.now, until);
      }
    } else if ReservableIds(t, op.user, op.ids) {
      CreateReservationKeepsInv(t, op.user, op.rid, Ids(ResolveFull(t, op.user, op.ids).value), op.purpose, 0,
        op.now, until);
    }
  }

  lemma StepKeepsInv(fk: bool, t: Tables, op: Op, from: Time, until: Time)
    requires Inv(t, from) && from <= until && TimesIn(op, from, until) && Linked(fk, t, op)
    ensures Inv(Apply(fk, t, op), until)
  {
    match op {
      case AddLeaves(_, _, _) => AddLeavesKeepsInv(t, op, from, until);
      case StoreAncestors(u, ps) =>
        InvLater(t, from, until);
        StoreChainsKeepsInv(t, u, ps, until);
      case SetLeaves(_, _, _, _, _, _, _, _) => SetLeavesKeepsInv(fk, t, op, from, until);
      case Cancel(_, _, _, _) => CancelledKeepsInv(t, op, from, until);
      case Finalize(_, _, _, _, _, _) => FinalizedKeepsInv(t, op, from, until);
      case TryReserve(_, _, _, _, _, _, _) => ReserveKeepsInv(fk, t, op, from, until);
      case ReserveByIds(_, _, _, _, _) => ReserveKeepsInv(fk, t, op, from, until);
      case Update(_, _, _, _, _, _, _) => UpdatedKeepsInv(t, op, from, until);
    }
  }

  /** In every reachable state each chain row belongs to a pooled leaf, no reservation dangles,
      and every promoted column equals the stored node. */
  lemma {:induction false} RunKeepsInv(fk: bool, t: Tables, clock: Time, es: seq<Event>)
    requires Inv(t, clock) && ValidRun(fk, t, clock, es) && LinkedRun(fk, t, es)
    ensures Inv(Run(fk, t, es), EndOf(clock, es))
    decreases es
  {
    if es != [] {
      var e := es[0];
      assert Inv(t, e.from);
      StepKeepsInv(fk, t, e.op, e.from, e.until);
      RunKeepsInv(fk, Apply(fk, t, e.op), e.until, es[1..]);
    }
  }
}

/** The leaf store over a database: the transactions as the store executes them. */
module TreeStore {
  import opened Base
  import opened TreeTables
  import opened LeafSelection
  import opened TreeOps
  import opened TreeInvariants
  import opened TreeRefresh
  import opened TreeProgram
  import opened TreeProgramOps
  import opened TreeBalance
  import opened ExitChains
  import SlimQuery

  const LEAF_UPSERT_CHUNK_SIZE: nat := 1_000
  const IDS_PER_STATEMENT: nat := 8_000
  const ANCESTOR_INSERT_CHUNK_SIZE: nat := 4096

  /** The database server: its tables and its clock, which never goes back. */
  class Database {
    const foreignKeys: bool
    var leaves: map<Key, LeafRow>
    var reservations: map<Key, Reservation>
    var spent: map<Key, Time>
    var chains: map<ChainKey, TreeNode>
    var swaps: map<User, Time>
    var clock: Time

    constructor (foreignKeys: bool, now: Time)
      ensures this.foreignKeys == foreignKeys && Rows() == EMPTY && clock == now
    {
      this.foreignKeys := foreignKeys;
      leaves, reservations, spent, chains, swaps := map[], map[], map[], map[], map[];
      clock := now;
    }

    function Rows(): Tables
      reads this
    {
      Tables(leaves, reservations, spent, chains, swaps)
    }

    /** One statement, at a time of the server's own. A statement that fails changes nothing. */
    method Exec(u: User, w: Write) returns (ok: bool)
      modifies this
      ensures clock >= old(clock)
      ensures ok <==> Do(foreignKeys, u, old(Rows()), w, clock).Some?
      ensures Rows() == if ok then Do(foreignKeys, u, old(Rows()), w, clock).value else old(Rows())
    {
      var now :| clock <= now;
      clock := now;
      var r := Do(foreignKeys, u, Rows(), w, clock);
      ok := r.Some?;
      if ok {
        Restore(r.value);
      }
    }

    /** ROLLBACK to what the tables were. */
    method Restore(t: Tables)
      modifies this
      ensures Rows() == t && clock == old(clock)
    {
      leaves, reservations, spent, chains, swaps := t.leaves, t.reservations, t.spent, t.chains, t.swaps;
    }
  }

  /** The ids of a set, in the order the server happens to return them. */
  method Listed(ids: set<Id>) returns (r: seq<Id>)
    ensures IdSet(r) == ids
  {
    r := [];
    var rest := ids;
    while rest != {}
      invariant rest <= ids && IdSet(r) == ids - rest
      decreases rest
    {
      var id :| id in rest;
      IdSetConcat(r, [id]);
      r := r + [id];
      rest := rest - {id};
    }
  }

  /** The leaves an upsert keeps. */
  method Filtered(nodes: seq<TreeNode>, skip: set<Id>) returns (kept: seq<TreeNode>)
    ensures kept == Without(nodes, skip)
  {
    kept := [];
    for i := 0 to |nodes|
      invariant kept == Without(nodes[..i], skip)
    {
      if nodes[i].id !in skip {
        kept := kept + [nodes[i]];
      }
      assert nodes[..i + 1][..i] == nodes[..i];
      WithoutInit(nodes[..i + 1], skip);
    }
    assert nodes[..|nodes|] == nodes;
  }

  class MysqlTreeStore {
    const db: Database
    const identity: User

    constructor (db: Database, identity: User)
      ensures this.db == db && this.identity == identity
    {
      this.db, this.identity := db, identity;
    }

    method UpsertChunk(chunk: seq<TreeNode>, missing: bool, ghost before: Tables, ghost past: seq<TreeNode>,
                       ghost atPast: Id -> Time)
      returns (ghost at: Id -> Time)
      requires db.Rows() == UpsertLeaves(before, identity, past, missing, atPast)
      modifies db
      ensures db.Rows() == UpsertLeaves(before, identity, past + chunk, missing, at)
      ensures old(db.clock) <= db.clock && forall id :: at(id) == if id in Ids(chunk) then db.clock else atPast(id)
    {
      var _ := db.Exec(identity, Write.Put(chunk, missing));
      ghost var now := db.clock;
      at := (id: Id) => if id in Ids(chunk) then now else atPast(id);
      UpsertConcat(before, identity, past, chunk, missing, atPast, (id: Id) => now, at);
    }

    /** Upserts leaves, without those to skip, chunk by chunk. */
    method BatchUpsertLeaves(nodes: seq<TreeNode>, missing: bool, skip: set<Id>) returns (ghost at: Id -> Time)
      modifies db
      ensures db.Rows() == UpsertLeaves(old(db.Rows()), identity, Without(nodes, skip), missing, at)
      ensures old(db.clock) <= db.clock && forall id :: old(db.clock) <= at(id) <= db.clock
    {
      var filtered := Filtered(nodes, skip);
      ghost var from, before := db.clock, db.Rows();
      at := (id: Id) => from;
      UpsertNothing(before, identity, missing, at);
      var done := 0;
      while done < |filtered|
        invariant done <= |filtered|
        invariant from <= db.clock && forall id :: from <= at(id) <= db.clock
        invariant db.Rows() == UpsertLeaves(before, identity, filtered[..done], missing, at)
      {
        var end := done + Cut(filtered[done..], LEAF_UPSERT_CHUNK_SIZE);
        at := UpsertChunk(filtered[done..end], missing, before, filtered[..done], at);
        assert filtered[..done] + filtered[done..end] == filtered[..end];
        done := end;
      }
      assert filtered[..done] == filtered;
    }

    // ----- set_leaves --------------------------------------------------------------------------

    /** Deletes the chains of the leaves that left, some ids per statement. */
    method DropChainsOf(departed: seq<Id>)
      modifies db
      ensures db.Rows() == DeleteChains(old(db.Rows()), identity, IdSet(departed)) && old(db.clock) <= db.clock
    {
      ghost var before := db.Rows();
      DeleteNoChains(before, identity);
      assert IdSet(departed[..0]) == {};
      var done := 0;
      while done < |departed|
        invariant done <= |departed| && old(db.clock) <= db.clock
        invariant db.Rows() == DeleteChains(before, identity, IdSet(departed[..done]))
      {
        var end := done + Cut(departed[done..], IDS_PER_STATEMENT);
        var chunk := departed[done..end];
        var _ := db.Exec(identity, DropChains(IdSet(chunk)));
        DeleteChainsConcat(before, identity, IdSet(departed[..done]), IdSet(chunk));
        IdSetConcat(departed[..done], chunk);
        assert departed[..done] + chunk == departed[..end];
        done := end;
      }
      assert departed[..done] == departed;
    }

    method CleanupStaleReservations() returns (ok: bool, ghost releaseAt: Time, ghost dropAt: Time)
      modifies db
      ensures old(db.clock) <= releaseAt <= dropAt <= db.clock
      ensures var c := CleanedUp(old(db.Rows()), identity, releaseAt, dropAt);
        (ok <==> !db.foreignKeys || NoDangling(c, identity)) && (ok ==> db.Rows() == c)
    {
      ok := db.Exec(identity, Release);
      releaseAt := db.clock;
      ok := db.Exec(identity, DropReservations);
      dropAt := db.clock;
    }

    /** Deletes the unreserved leaves older than the refresh, and the chains of those that stay away. */
    method RemoveStale(start: Time, reported: set<Id>)
      modifies db
      ensures db.Rows() == WithoutStale(old(db.Rows()), identity, start, reported) && old(db.clock) <= db.clock
    {
      var staleIds := Listed(StaleLeaves(db.Rows(), identity, start));
      var _ := db.Exec(identity, DeleteStale(start));
      var departed := Departed(staleIds, reported);
      DropChainsOf(departed);
    }

    method ProceedWithRefresh(nodes: seq<TreeNode>, missingNodes: seq<TreeNode>, start: Time)
      returns (ghost at: Id -> Time, ghost atMissing: Id -> Time)
      modifies db
      ensures db.Rows() == Refreshed(old(db.Rows()), identity, nodes, missingNodes, start, at, atMissing)
      ensures old(db.clock) <= db.clock && forall id :: old(db.clock) <= at(id) <= db.clock
      ensures forall id :: old(db.clock) <= atMissing(id) <= db.clock
    {
      var _ := db.Exec(identity, DropMarkers(start - SPENT_MARKER_CLEANUP_THRESHOLD));
      var spentIds := RecentlySpent(db.Rows(), identity, start);
      RemoveStale(start, Ids(nodes) + Ids(missingNodes));
      at := BatchUpsertLeaves(nodes, false, spentIds);
      atMissing := BatchUpsertLeaves(missingNodes, true, spentIds);
    }

    /** A refresh. It fails only on the foreign key, and then changes nothing. */
    method SetLeaves(nodes: seq<TreeNode>, missingNodes: seq<TreeNode>, start: Time) returns (ok: bool, ghost op: Op)
      modifies db
      ensures Asks(op, identity, CallSetLeaves(nodes, missingNodes, start)) && TimesIn(op, old(db.clock), db.clock)
      ensures db.Rows() == Refresh(db.foreignKeys, old(db.Rows()), op)
      ensures ok <==> OutcomeOfRefresh(db.foreignKeys, old(db.Rows()), op) != Failed
    {
      var before := db.Rows();
      ghost var releaseAt, dropAt;
      ok, releaseAt, dropAt := CleanupStaleReservations();
      ghost var now := db.clock;
      ghost var at, atMissing := (id: Id) => now, (id: Id) => now;
      if !ok {
        db.Restore(before);
      } else if !Blocked(db.Rows(), identity, start) {
        at, atMissing := ProceedWithRefresh(nodes, missingNodes, start);
      }
      op := Op.SetLeaves(identity, nodes, missingNodes, start, releaseAt, dropAt, at, atMissing);
    }

    // ----- reservations --------------------------------------------------------------------------

    /** Marks a reservation's leaves spent and takes them out with their chains. */
    method SpendHeld(rid: ReservationId, held: set<Id>) returns (ghost at: Time)
      modifies db
      ensures db.Rows() == Spend(old(db.Rows()), identity, rid, held, at) && old(db.clock) <= at <= db.clock
    {
      ghost var before := db.Rows();
      at := db.clock;
      if held != {} {
        var _ := db.Exec(identity, Mark(held));
        at := db.clock;
        var _ := db.Exec(identity, DropChains(held));
      } else {
        SpendNothing(before, identity, at);
      }
      assert HeldBy(db.Rows(), identity, rid) == HeldBy(before, identity, rid);
      var _ := db.Exec(identity, DeleteHeld(rid));
    }

    /** The leaves a spend brought in; for a swap, the time it completed. */
    method AddNewLeaves(nodes: seq<TreeNode>, isSwap: bool) returns (ghost at: Id -> Time, ghost swapAt: Time)
      modifies db
      ensures old(db.clock) <= swapAt <= db.clock && forall id :: old(db.clock) <= at(id) <= swapAt
      ensures var t := UpsertLeaves(old(db.Rows()), identity, nodes, false, at);
        db.Rows() == t.(swaps := if isSwap then t.swaps[identity := swapAt] else t.swaps)
    {
      at := BatchUpsertLeaves(nodes, false, {});
      WithoutNone(nodes);
      swapAt := db.clock;
      if isSwap {
        var _ := db.Exec(identity, NoteSwap);
        swapAt := db.clock;
      }
    }

    /** Succeeds whether or not the reservation is there. */
    method FinalizeReservation(rid: ReservationId, newLeaves: Option<seq<TreeNode>>)
      returns (r: Result<(), string>, ghost op: Op)
      modifies db
      ensures r == Ok(())
      ensures Asks(op, identity, CallFinalize(rid, newLeaves)) && TimesIn(op, old(db.clock), db.clock)
      ensures db.Rows() == Finalized(old(db.Rows()), op)
    {
      var isSwap, held := false, {};
      if IsLive(db.Rows(), identity, rid) {
        isSwap := db.reservations[Key(identity, rid)].purpose == Swap;
        held := HeldBy(db.Rows(), identity, rid);
      }
      ghost var spentAt := SpendHeld(rid, held);
      var _ := db.Exec(identity, DeleteRid(rid));
      ghost var at, swapAt := (id: Id) => spentAt, db.clock;
      if newLeaves.Some? {
        at, swapAt := AddNewLeaves(newLeaves.value, isSwap);
      }
      r := Ok(());
      op := Op.Finalize(identity, rid, newLeaves, spentAt, at, swapAt);
    }

    /** Takes a reservation and its leaves out; only the kept ones keep their chains. */
    method RemoveHeld(rid: ReservationId, kept: set<Id>)
      modifies db
      ensures var held := HeldBy(old(db.Rows()), identity, rid);
        db.Rows() == DeleteReservation(DeleteLeaves(DeleteChains(old(db.Rows()), identity, held - kept),
          Keys(identity, held)), identity, rid)
      ensures old(db.clock) <= db.clock
    {
      var held := HeldBy(db.Rows(), identity, rid);
      ghost var before := db.Rows();
      if held - kept != {} {
        var _ := db.Exec(identity, DropChains(held - kept));
      } else {
        DeleteNoChains(before, identity);
      }
      assert HeldBy(db.Rows(), identity, rid) == held;
      var _ := db.Exec(identity, DeleteHeld(rid));
      var _ := db.Exec(identity, DeleteRid(rid));
    }

    method CancelReservation(rid: ReservationId, keep: seq<TreeNode>) returns (ghost op: Op)
      modifies db
      ensures Asks(op, identity, CallCancel(rid, keep)) && TimesIn(op, old(db.clock), db.clock)
      ensures db.Rows() == Cancelled(old(db.Rows()), op)
    {
      RemoveHeld(rid, Ids(keep));
      ghost var at := BatchUpsertLeaves(keep, false, {});
      WithoutNone(keep);
      op := Op.Cancel(identity, rid, keep, at);
    }

    method UpdateReservation(rid: ReservationId, reserved: seq<TreeNode>, change: seq<TreeNode>)
      returns (r: Result<seq<TreeNode>, string>, ghost op: Op)
      modifies db
      ensures Asks(op, identity, CallUpdate(rid, reserved, change)) && TimesIn(op, old(db.clock), db.clock)
      ensures db.Rows() == Updated(old(db.Rows()), op)
      ensures r.Ok? <==> IsLive(old(db.Rows()), identity, rid)
      ensures r.Ok? ==> r.value == reserved
    {
      ghost var spentAt, now := db.clock, db.clock;
      ghost var atChange, atReserved := (id: Id) => now, (id: Id) => now;
      if !IsLive(db.Rows(), identity, rid) {
        r := Err("Reservation not found");
      } else {
        r := Ok(reserved);
        spentAt := SpendHeld(rid, HeldBy(db.Rows(), identity, rid));
        atChange, atReserved := ReplaceLeaves(rid, reserved, change);
      }
      op := Op.Update(identity, rid, reserved, change, spentAt, atChange, atReserved);
    }

    method ReplaceLeaves(rid: ReservationId, reserved: seq<TreeNode>, change: seq<TreeNode>)
      returns (ghost atChange: Id -> Time, ghost atReserved: Id -> Time)
      requires IsLive(db.Rows(), identity, rid)
      modifies db
      ensures old(db.clock) <= db.clock && forall id :: old(db.clock) <= atChange(id) <= db.clock
      ensures forall id :: old(db.clock) <= atReserved(id) <= db.clock
      ensures var t1 := UpsertLeaves(old(db.Rows()), identity, change, false, atChange);
        var t2 := SetReservation(UpsertLeaves(t1, identity, reserved, false, atReserved), identity, Ids(reserved), rid);
        db.Rows() == t2.(reservations :=
          t2.reservations[Key(identity, rid) := t2.reservations[Key(identity, rid)].(pending := 0)])
    {
      atChange := BatchUpsertLeaves(change, false, {});
      atReserved := BatchUpsertLeaves(reserved, false, {});
      WithoutNone(change);
      WithoutNone(reserved);
      AssignAndClear(rid, reserved);
    }

    method AssignAndClear(rid: ReservationId, reserved: seq<TreeNode>)
      requires IsLive(db.Rows(), identity, rid)
      modifies db
      ensures old(db.clock) <= db.clock
      ensures var t := SetReservation(old(db.Rows()), identity, Ids(reserved), rid);
        db.Rows() == t.(reservations :=
          t.reservations[Key(identity, rid) := t.reservations[Key(identity, rid)].(pending := 0)])
    {
      if reserved != [] {
        var _ := db.Exec(identity, Assign(Ids(reserved), rid));
      } else {
        AssignNothing(db.Rows(), identity, rid);
      }
      var _ := db.Exec(identity, ClearPending(rid));
    }

    // ----- selection -------------------------------------------------------------------------------

    /** SUM(value) over some rows. */
    method SumValues(keys: set<Key>) returns (total: int)
      ensures total == Sum(keys, ValueColumn(db.leaves))
    {
      ghost var f := ValueColumn(db.leaves);
      total := 0;
      var rest := keys;
      while rest != {}
        invariant rest <= keys && total + Sum(rest, f) == Sum(keys, f)
        decreases rest
      {
        var k :| k in rest;
        SumRemove(rest, f, k);
        total := total + (if k in db.leaves then db.leaves[k].value else 0);
        rest := rest - {k};
      }
    }

    method SumPending() returns (total: int)
      ensures total == PendingTotal(db.Rows(), identity)
    {
      var keys := UserReservations(db.Rows(), identity);
      ghost var f := PendingColumn(db.reservations);
      total := 0;
      var rest := keys;
      while rest != {}
        invariant rest <= keys && total + Sum(rest, f) == Sum(keys, f)
        decreases rest
      {
        var k :| k in rest;
        SumRemove(rest, f, k);
        total := total + db.reservations[k].pending;
        rest := rest - {k};
      }
    }

    /** `ORDER BY value LIMIT 1` over the eligible leaves above the bound. */
    method SmallestAbove(bound: nat) returns (over: Option<Id>)
      ensures SmallestOver(db.Rows(), identity, bound, over)
    {
      var t := db.Rows();
      var keys := EligibleKeys(t, identity);
      over := None;
      var rest := keys;
      while rest != {}
        invariant rest <= keys
        invariant over.None? ==> forall k :: k in keys - rest ==> t.leaves[k].value <= bound
        invariant over.Some? ==> Key(identity, over.value) in keys && t.leaves[Key(identity, over.value)].value > bound
        invariant over.Some? ==> forall k :: k in keys - rest && t.leaves[k].value > bound ==>
          t.leaves[Key(identity, over.value)].value <= t.leaves[k].value
        decreases rest
      {
        var k :| k in rest;
        assert k == Key(identity, k.id);
        if t.leaves[k].value > bound && (over.None? || t.leaves[k].value < t.leaves[Key(identity, over.value)].value) {
          over := Some(k.id);
        }
        rest := rest - {k};
      }
    }

    /** The slim projection: every eligible leaf up to the bound, and the smallest one above it. */
    method SlimCandidates(bound: nat) returns (rows: seq<SlimLeaf>)
      ensures AnswersSlim(db.Rows(), identity, bound, rows)
    {
      var t := db.Rows();
      var over := SmallestAbove(bound);
      var keys := set k | k in t.leaves && k in EligibleKeys(t, identity)
        && (t.leaves[k].value <= bound || over == Some(k.id));
      assert keys == set k | k in t.leaves && IsSlim(t, identity, bound, over, k);
      rows := [];
      var rest := keys;
      while rest != {}
        invariant rest <= keys && Lists(t, identity, keys - rest, rows)
        decreases rest
      {
        var k :| k in rest;
        var row := SlimLeaf(k.id, AsU64OrZero(t.leaves[k].value));
        SlimQuery.ListsOneMore(t, identity, keys - rest, rows, k, row);
        assert keys - (rest - {k}) == keys - rest + {k};
        rows := rows + [row];
        rest := rest - {k};
      }
      assert keys - {} == keys;
    }

    /** Opens a reservation over leaves already resolved. */
    method OpenReservation(rid: ReservationId, nodes: seq<TreeNode>, purpose: Purpose, pending: U64)
      returns (ok: bool, ghost now: Time)
      modifies db
      ensures old(db.clock) <= now <= db.clock
      ensures ok <==> !IsLive(old(db.Rows()), identity, rid)
      ensures db.Rows() == if ok then CreateReservation(old(db.Rows()), identity, rid, Ids(nodes), purpose, pending,
        now) else old(db.Rows())
    {
      ok := db.Exec(identity, Open(rid, purpose, pending));
      now := db.clock;
      if ok {
        if nodes != [] {
          var _ := db.Exec(identity, Assign(Ids(nodes), rid));
        } else {
          AssignNothing(db.Rows(), identity, rid);
        }
      }
    }

    /** `try_reserve_leaves`: what was decided, and the leaves reserved if any. */
    method TryReserveLeaves(rid: ReservationId, target: Option<TargetAmounts>, exactOnly: bool, purpose: Purpose)
      returns (d: Decision, reserved: Option<seq<TreeNode>>, ghost op: Op)
      modifies db
      ensures Asks(op, identity, CallTryReserve(rid, target, exactOnly, purpose))
        && TimesIn(op, old(db.clock), db.clock)
      ensures AnswersSlim(old(db.Rows()), identity, SlimBound(target), op.rows)
      ensures d == DecisionOf(old(db.Rows()), op) && db.Rows() == TryReserved(old(db.Rows()), op)
      ensures reserved.Some? <==>
        d.Reserve? && ResolveFull(old(db.Rows()), identity, d.ids).Some? && !IsLive(old(db.Rows()), identity, rid)
      ensures reserved.Some? ==> reserved == ResolveFull(old(db.Rows()), identity, d.ids)
    {
      var available := SumValues(EligibleKeys(db.Rows(), identity));
      var rows := SlimCandidates(SlimBound(target));
      var pending := SumPending();
      d := Decide(available, pending, rows, target, exactOnly);
      ghost var now := db.clock;
      reserved := None;
      if d.Reserve? {
        var nodes := ResolveFull(db.Rows(), identity, d.ids);
        if nodes.Some? {
          var ok;
          ok, now := OpenReservation(rid, nodes.value, purpose,
            PendingChange(nodes.value, TotalSats(target), d.minimum));
          reserved := if ok then nodes else None;
        }
      }
      op := Op.TryReserve(identity, rid, target, exactOnly, purpose, rows, now);
    }

    method TryReserveLeavesByIds(rid: ReservationId, ids: seq<Id>, purpose: Purpose)
      returns (reserved: Option<seq<TreeNode>>, ghost op: Op)
      modifies db
      ensures Asks(op, identity, CallReserveByIds(rid, ids, purpose)) && TimesIn(op, old(db.clock), db.clock)
      ensures db.Rows() == ReservedByIds(old(db.Rows()), op)
      ensures reserved.Some? <==> ReservableIds(old(db.Rows()), identity, ids) && !IsLive(old(db.Rows()), identity, rid)
      ensures reserved.Some? ==> reserved == ResolveFull(old(db.Rows()), identity, ids)
    {
      ghost var now := db.clock;
      reserved := None;
      if ReservableIds(db.Rows(), identity, ids) {
        var nodes := ResolveFull(db.Rows(), identity, ids);
        var ok;
        ok, now := OpenReservation(rid, nodes.value, purpose, 0);
        reserved := if ok then nodes else None;
      }
      op := Op.ReserveByIds(identity, rid, ids, purpose, now);
    }

    // ----- leaves and chains added -----------------------------------------------------------------

    method AddLeaves(nodes: seq<TreeNode>) returns (ghost op: Op)
      modifies db
      ensures op.AddLeaves? && op.user == identity && op.nodes == nodes && TimesIn(op, old(db.clock), db.clock)
      ensures db.Rows() == Apply(db.foreignKeys, old(db.Rows()), op)
    {
      ghost var before := db.Rows();
      if nodes != [] {
        var _ := db.Exec(identity, Unmark(Ids(nodes)));
      } else {
        assert UnmarkSpent(before, identity, {}).spent == before.spent;
      }
      ghost var at := BatchUpsertLeaves(nodes, false, {});
      WithoutNone(nodes);
      op := Op.AddLeaves(identity, nodes, at);
    }

    /** Which pedigrees' leaves the pool still holds, some ids per statement. */
    method StillPooled(pedigrees: seq<Pedigree>) returns (live: seq<Pedigree>)
      ensures live == Storable(db.Rows(), identity, pedigrees)
    {
      live := [];
      for i := 0 to |pedigrees|
        invariant live == Storable(db.Rows(), identity, pedigrees[..i])
      {
        var p := pedigrees[i];
        StorableConcat(db.Rows(), identity, pedigrees[..i], [p]);
        assert pedigrees[..i + 1] == pedigrees[..i] + [p];
        assert [p][1..] == [];
        if Key(identity, p.leaf.id) in db.leaves && p.ancestors != [] {
          live := live + [p];
        }
      }
      assert pedigrees[..|pedigrees|] == pedigrees;
    }

    /** Inserts ancestor rows, some per statement; a duplicate key fails. */
    method BatchInsertAncestors(rows: seq<ChainRow>) returns (ok: bool)
      modifies db
      ensures old(db.clock) <= db.clock
      ensures ok <==> Fit(identity, old(db.Rows()), rows)
      ensures ok ==> db.Rows() == InsertChains(old(db.Rows()), identity, rows)
    {
      ghost var before := db.Rows();
      ok := true;
      var done := 0;
      while ok && done < |rows|
        invariant done <= |rows| && old(db.clock) <= db.clock
        invariant ok ==>
          Fit(identity, before, rows[..done]) && db.Rows() == InsertChains(before, identity, rows[..done])
        invariant !ok ==> !Fit(identity, before, rows)
        decreases ok, |rows| - done
      {
        var end := done + Cut(rows[done..], ANCESTOR_INSERT_CHUNK_SIZE);
        var chunk := rows[done..end];
        ok := db.Exec(identity, InsertRows(chunk));
        assert rows[..done] + chunk == rows[..end];
        assert rows[..done] + chunk + rows[end..] == rows;
        if ok {
          NextRowsFit(before, identity, rows[..done], chunk);
          done := end;
        } else if Fit(identity, before, rows) {
          PartFits(before, identity, rows[..done], chunk, rows[end..]);
        }
      }
      assert done == |rows| ==> rows[..done] == rows;
    }

    method StoreAncestors(pedigrees: seq<Pedigree>) returns (ok: bool)
      modifies db
      ensures db.Rows() == StoreChains(old(db.Rows()), identity, pedigrees)
      ensures ok <==> DistinctRows(ChainRows(Storable(old(db.Rows()), identity, pedigrees)))
    {
      var before := db.Rows();
      var live := StillPooled(pedigrees);
      ok := true;
      if live == [] {
        assert LeafIds(live) == {};
        DeleteNoChains(before, identity);
      } else {
        var rows := ChainRows(live);
        var _ := db.Exec(identity, DropChains(LeafIds(live)));
        RowsNotStored(before, identity, live);
        ok := BatchInsertAncestors(rows);
        if !ok {
          db.Restore(before);
        }
      }
    }

    // ----- reads -----------------------------------------------------------------------------------

    /** The sum is read back as a signed column; one that does not fit fails the call. */
    method GetAvailableBalance() returns (r: Result<nat, string>)
      ensures r.Ok? <==> FitsI64(Balance(db.Rows(), identity))
      ensures r.Ok? ==> r.value == AsU64OrZero(Balance(db.Rows(), identity))
    {
      var sum := SumValues(CountedKeys(db.Rows(), identity));
      r := if FitsI64(sum) then Ok(AsU64OrZero(sum)) else Err("sum out of range");
    }

    /** Puts every leaf of the tenant into one of the five lists. */
    method GetLeaves() returns (lists: Leaves)
      ensures forall c :: NodeTotal(lists.Of(c)) == ClassTotal(db.Rows(), identity, c)
      ensures forall c :: Ids(lists.Of(c)) == (set k | k in ClassKeys(db.Rows(), identity, c) :: db.leaves[k].data.id)
      ensures lists.Balance() == ListBalance(db.Rows(), identity)
    {
      var t := db.Rows();
      var keys := set k | k in t.leaves && k.user == identity;
      lists := Leaves([], [], [], [], []);
      var rest := keys;
      assert forall c :: InClass(t, keys - rest, c) == {};
      while rest != {}
        invariant rest <= keys && forall c :: Holds(t, InClass(t, keys - rest, c), lists.Of(c))
        decreases rest
      {
        var k :| k in rest;
        var node := t.leaves[k].data;
        ghost var before, c0 := lists, ClassOf(t, k);
        var purpose := PurposeOf(t, k);
        if purpose == Some(Payment) {
          lists := lists.(payment := lists.payment + [node]);
        } else if purpose == Some(Swap) {
          lists := lists.(swap := lists.swap + [node]);
        } else if node.status != Available {
          lists := lists.(notAvailable := lists.notAvailable + [node]);
        } else if t.leaves[k].missing {
          lists := lists.(missing := lists.missing + [node]);
        } else {
          lists := lists.(available := lists.available + [node]);
        }
        assert keys - (rest - {k}) == keys - rest + {k};
        forall c ensures Holds(t, InClass(t, keys - rest + {k}, c), lists.Of(c)) {
          OneMoreLeaf(t, keys - rest, k, c, before.Of(c), lists.Of(c));
        }
        rest := rest - {k};
      }
      assert keys - rest == keys;
      forall c ensures Holds(t, ClassKeys(t, identity, c), lists.Of(c)) {
        assert InClass(t, keys, c) == ClassKeys(t, identity, c);
      }
    }
  }

  datatype Leaves = Leaves(available: seq<TreeNode>, notAvailable: seq<TreeNode>, missing: seq<TreeNode>,
                           payment: seq<TreeNode>, swap: seq<TreeNode>)
  {
    function Of(c: Class): seq<TreeNode>
    {
      match c
      case AvailableClass => available
      case NotAvailableClass => notAvailable
      case MissingClass => missing
      case PaymentClass => payment
      case SwapClass => swap
    }

    function Balance(): nat { NodeTotal(available) + NodeTotal(missing) + NodeTotal(swap) }
  }

  ghost function InClass(t: Tables, keys: set<Key>, c: Class): set<Key>
  {
    set k | k in keys && k in t.leaves && ClassOf(t, k) == c
  }

  /** The nodes of some rows, one each. */
  ghost predicate Holds(t: Tables, keys: set<Key>, nodes: seq<TreeNode>)
    requires forall k :: k in keys ==> k in t.leaves
  {
    NodeTotal(nodes) == Sum(keys, NodeValue(t.leaves)) && Ids(nodes) == (set k | k in keys :: t.leaves[k].data.id)
  }

  lemma {:induction false} NodeTotalSnoc(nodes: seq<TreeNode>, n: TreeNode)
    ensures NodeTotal(nodes + [n]) == NodeTotal(nodes) + n.value
    decreases nodes
  {
    if nodes == [] {
      assert nodes + [n] == [n] && [n][1..] == [];
    } else {
      assert (nodes + [n])[1..] == nodes[1..] + [n];
      NodeTotalSnoc(nodes[1..], n);
    }
  }

  lemma OneMoreLeaf(t: Tables, seen: set<Key>, k: Key, c: Class, before: seq<TreeNode>, after: seq<TreeNode>)
    requires k !in seen && k in t.leaves && Holds(t, InClass(t, seen, c), before)
    requires after == if ClassOf(t, k) == c then before + [t.leaves[k].data] else before
    ensures Holds(t, InClass(t, seen + {k}, c), after)
  {
    var keys, more := InClass(t, seen, c), InClass(t, seen + {k}, c);
    if ClassOf(t, k) == c {
      assert more == keys + {k} && more - {k} == keys;
      SumRemove(more, NodeValue(t.leaves), k);
      NodeTotalSnoc(before, t.leaves[k].data);
      IdsConcat(before, [t.leaves[k].data]);
      assert Ids([t.leaves[k].data]) == {t.leaves[k].data.id};
    } else {
      assert more == keys;
    }
  }

  /** One more chunk of rows goes in, the ones before it having gone in. */
  lemma NextRowsFit(t: Tables, u: User, past: seq<ChainRow>, chunk: seq<ChainRow>)
    requires Fit(u, t, past) && Fit(u, InsertChains(t, u, past), chunk)
    ensures Fit(u, t, past + chunk)
    ensures InsertChains(InsertChains(t, u, past), u, chunk) == InsertChains(t, u, past + chunk)
  {
    assert (past + chunk)[..|past|] == past && (past + chunk)[|past|..] == chunk;
    FitInTwo(u, t, past + chunk, |past|);
  }

  /** When all rows go in, every chunk of them goes in. */
  lemma PartFits(t: Tables, u: User, past: seq<ChainRow>, chunk: seq<ChainRow>, rest: seq<ChainRow>)
    requires Fit(u, t, past + chunk + rest)
    ensures Fit(u, InsertChains(t, u, past), chunk)
  {
    var all := past + chunk + rest;
    assert forall i :: 0 <= i < |chunk| ==> chunk[i] == all[|past| + i];
    InsertChainsKeys(t, u, past);
    forall r | r in chunk ensures ChainKeyOf(u, r) !in InsertChains(t, u, past).chains {
      var i :| 0 <= i < |chunk| && chunk[i] == r;
      assert all[|past| + i] == r;
      forall j | 0 <= j < |past| ensures ChainKeyOf(u, past[j]) != ChainKeyOf(u, r) {
        assert all[j] == past[j];
      }
    }
  }

  lemma {:induction false} InsertChainsKeys(t: Tables, u: User, rows: seq<ChainRow>)
    ensures forall c :: c in InsertChains(t, u, rows).chains ==>
      c in t.chains || exists j :: 0 <= j < |rows| && ChainKeyOf(u, rows[j]) == c
    decreases rows
  {
    if rows != [] {
      var t1 := t.(chains := t.chains[ChainKeyOf(u, rows[0]) := rows[0].node]);
      InsertChainsKeys(t1, u, rows[1..]);
      forall c | c in InsertChains(t, u, rows).chains && c !in t.chains
        ensures exists j :: 0 <= j < |rows| && ChainKeyOf(u, rows[j]) == c
      {
        if c != ChainKeyOf(u, rows[0]) {
          var j :| 0 <= j < |rows[1..]| && ChainKeyOf(u, rows[1..][j]) == c;
          assert rows[j + 1] == rows[1..][j];
        }
      }
    }
  }

  /** The rows of leaves whose chains were just deleted are free. */
  lemma RowsNotStored(t: Tables, u: User, live: seq<Pedigree>)
    ensures forall r :: r in ChainRows(live) ==> ChainKeyOf(u, r) !in DeleteChains(t, u, LeafIds(live)).chains
  {
    RowsBelongToLive(live);
  }

  /** The stale ids a refresh does not report. */
  method Departed(stale: seq<Id>, reported: set<Id>) returns (r: seq<Id>)
    ensures IdSet(r) == IdSet(stale) - reported
  {
    r := [];
    for i := 0 to |stale|
      invariant IdSet(r) == IdSet(stale[..i]) - reported
    {
      IdSetConcat(stale[..i], [stale[i]]);
      assert stale[..i + 1] == stale[..i] + [stale[i]];
      assert IdSet([stale[i]]) == {stale[i]};
      if stale[i] !in reported {
        IdSetConcat(r, [stale[i]]);
        r := r + [stale[i]];
      }
    }
    assert stale[..|stale|] == stale;
  }

  lemma {:induction false} WithoutNone(nodes: seq<TreeNode>)
    ensures Without(nodes, {}) == nodes
    decreases nodes
  {
    if nodes != [] {
      WithoutNone(nodes[1..]);
    }
  }
}

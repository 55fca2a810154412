/** What each operation on leaves does to the tables, row by row. The last node of a list with an
    id is the one stored for it; everything an operation does not name is as it was. */
module TreeEffects {
  import opened Base
  import opened TreeTables
  import opened LeafSelection
  import opened TreeOps
  import opened TreeInvariants
  import opened TreeRefresh
  import opened TreeBalance
  import opened TreeConservation
  import opened ReservationLifetime
  import ExitChains

  // ----- what a row says -----------------------------------------------------------------------------

  predicate Names(nodes: seq<TreeNode>, id: Id) { exists i :: 0 <= i < |nodes| && nodes[i].id == id }

  /** No later node of the list has the same id. */
  predicate LastListed(nodes: seq<TreeNode>, i: int)
  {
    0 <= i < |nodes| && forall j :: i < j < |nodes| ==> nodes[j].id != nodes[i].id
  }

  /** The row of the node: the node itself, its promoted columns with the value as a signed number,
      and the reservation, flag and time given. */
  predicate Stores(t: Tables, u: User, n: TreeNode, missing: bool, reservation: Option<ReservationId>, at: Time)
  {
    Key(u, n.id) in t.leaves &&
    var row := t.leaves[Key(u, n.id)];
    && row.data == n && row.status == n.status && row.parent == n.parent
    && row.value == (if n.value > I64_MAX then n.value - 0x1_0000_0000_0000_0000 else n.value)
    && row.missing == missing && row.reservation == reservation && row.addedAt == at
  }

  function ReservationOf(t: Tables, k: Key): Option<ReservationId>
  {
    if k in t.leaves then t.leaves[k].reservation else None
  }

  predicate HoldsRow(t: Tables, u: User, rid: ReservationId, k: Key)
  {
    k in t.leaves && k.user == u && t.leaves[k].reservation == Some(rid)
  }

  /** The reservation a leaf keeps when one reservation lets go of it. */
  function OtherReservation(t: Tables, u: User, rid: ReservationId, k: Key): Option<ReservationId>
  {
    if HoldsRow(t, u, rid, k) then None else ReservationOf(t, k)
  }

  predicate SameRow(t: Tables, t': Tables, k: Key)
  {
    if k in t.leaves then k in t'.leaves && t'.leaves[k] == t.leaves[k] else k !in t'.leaves
  }

  predicate SameMarker(t: Tables, t': Tables, k: Key)
  {
    if k in t.spent then k in t'.spent && t'.spent[k] == t.spent[k] else k !in t'.spent
  }

  predicate SameChain(t: Tables, t': Tables, c: ChainKey)
  {
    if c in t.chains then c in t'.chains && t'.chains[c] == t.chains[c] else c !in t'.chains
  }

  lemma NamesIff(nodes: seq<TreeNode>, id: Id)
    ensures Names(nodes, id) <==> id in Ids(nodes)
  {
    if id in Ids(nodes) {
      var n :| n in nodes && n.id == id;
      var i :| 0 <= i < |nodes| && nodes[i] == n;
      assert nodes[i].id == id;
    }
    if i :| 0 <= i < |nodes| && nodes[i].id == id {
      assert nodes[i] in nodes;
    }
  }

  lemma {:induction false} LastListedIsLast(nodes: seq<TreeNode>, i: nat)
    requires LastListed(nodes, i)
    ensures nodes[i].id in Ids(nodes) && LastOf(nodes, nodes[i].id) == nodes[i]
    decreases nodes
  {
    assert nodes[i] in nodes;
    if i < |nodes| - 1 {
      assert nodes[|nodes| - 1].id != nodes[i].id;
      var init := nodes[..|nodes| - 1];
      assert init[i] == nodes[i] && forall j :: i < j < |init| ==> init[j] == nodes[j];
      LastListedIsLast(init, i);
    }
  }

  lemma {:induction false} LastOfIsListed(nodes: seq<TreeNode>, id: Id) returns (i: nat)
    requires Names(nodes, id)
    ensures LastListed(nodes, i) && nodes[i].id == id
    decreases nodes
  {
    i := |nodes| - 1;
    if nodes[i].id != id {
      var init := nodes[..i];
      var j :| 0 <= j < |nodes| && nodes[j].id == id;
      assert init[j].id == id;
      i := LastOfIsListed(init, id);
      assert forall j :: 0 <= j < |init| ==> init[j] == nodes[j];
    }
  }

  // ----- one upsert ----------------------------------------------------------------------------------

  lemma UpsertStores(t: Tables, u: User, nodes: seq<TreeNode>, missing: bool, at: Id -> Time, i: nat)
    requires LastListed(nodes, i)
    ensures var n := nodes[i];
      Stores(UpsertLeaves(t, u, nodes, missing, at), u, n, missing, ReservationOf(t, Key(u, n.id)), at(n.id))
  {
    LastListedIsLast(nodes, i);
    assert Key(u, nodes[i].id) in Keys(u, Ids(nodes));
  }

  lemma UpsertKeepsRest(t: Tables, u: User, nodes: seq<TreeNode>, missing: bool, at: Id -> Time, k: Key)
    requires k.user != u || !Names(nodes, k.id)
    ensures SameRow(t, UpsertLeaves(t, u, nodes, missing, at), k)
  {
    NamesIff(nodes, k.id);
  }

  // ----- add_leaves ------------------------------------------------------------------------------------

  lemma AddStep(fk: bool, t: Tables, op: Op)
    requires op.AddLeaves?
    ensures Apply(fk, t, op)
      == UpsertLeaves(UnmarkSpent(t, op.user, Ids(op.nodes)), op.user, op.nodes, false, op.at)
  {}

  /** Adding leaves stores each as last listed, held by every operator, under the reservation it had
      and without a spent marker, and changes nothing else. */
  lemma AddLeavesExactly(fk: bool, t: Tables, op: Op)
    requires op.AddLeaves?
    ensures var t', u := Apply(fk, t, op), op.user;
      && (forall i :: LastListed(op.nodes, i) ==>
           var n := op.nodes[i]; Stores(t', u, n, false, ReservationOf(t, Key(u, n.id)), op.at(n.id)))
      && (forall k: Key :: k.user == u && Names(op.nodes, k.id) ==> k !in t'.spent)
      && (forall k: Key :: k.user != u || !Names(op.nodes, k.id) ==> SameRow(t, t', k) && SameMarker(t, t', k))
      && t'.reservations == t.reservations && t'.chains == t.chains && t'.swaps == t.swaps
  {
    var t', u, t1 := Apply(fk, t, op), op.user, UnmarkSpent(t, op.user, Ids(op.nodes));
    AddStep(fk, t, op);
    forall i | LastListed(op.nodes, i)
      ensures var n := op.nodes[i]; Stores(t', u, n, false, ReservationOf(t, Key(u, n.id)), op.at(n.id))
    {
      UpsertStores(t1, u, op.nodes, false, op.at, i);
    }
    forall k: Key | k.user == u && Names(op.nodes, k.id) ensures k !in t'.spent {
      NamesIff(op.nodes, k.id);
    }
    forall k: Key | k.user != u || !Names(op.nodes, k.id) ensures SameRow(t, t', k) && SameMarker(t, t', k) {
      NamesIff(op.nodes, k.id);
      UpsertKeepsRest(t1, u, op.nodes, false, op.at, k);
    }
  }

  /** So an available leaf that no reservation holds can be spent as soon as it is added. */
  lemma AddedIsEligible(fk: bool, t: Tables, op: Op, i: nat)
    requires op.AddLeaves? && LastListed(op.nodes, i) && op.nodes[i].status == Available
    requires ReservationOf(t, Key(op.user, op.nodes[i].id)).None?
    ensures Key(op.user, op.nodes[i].id) in EligibleKeys(Apply(fk, t, op), op.user)
  {
    AddLeavesExactly(fk, t, op);
  }

  /** New available leaves raise the balance by their total. */
  lemma AddingRaisesBalance(fk: bool, t: Tables, op: Op)
    requires op.AddLeaves? && NewToPool(t, op.user, op.nodes)
    ensures Balance(Apply(fk, t, op), op.user) == Balance(t, op.user) + NodeTotal(op.nodes)
  {
    var t1 := UnmarkSpent(t, op.user, Ids(op.nodes));
    AddStep(fk, t, op);
    SwapTimeKeepsBalance(t, t1, op.user);
    UpsertNewAddsTotal(t1, op.user, op.nodes, op.at);
  }

  /** A refresh that began no later than the leaf was added does not drop it, reported or not. */
  lemma OlderRefreshKeepsAdded(fk: bool, t: Tables, add: Op, i: nat, refresh: Op)
    requires add.AddLeaves? && LastListed(add.nodes, i)
    requires refresh.SetLeaves? && (refresh.user == add.user ==> refresh.start <= add.at(add.nodes[i].id))
    ensures Key(add.user, add.nodes[i].id) in Apply(fk, Apply(fk, t, add), refresh).leaves
  {
    var t1, k := Apply(fk, t, add), Key(add.user, add.nodes[i].id);
    AddLeavesExactly(fk, t, add);
    RefreshKeepsYoung(fk, t1, refresh, k);
  }

  lemma RefreshKeepsYoung(fk: bool, t: Tables, op: Op, k: Key)
    requires op.SetLeaves? && k in t.leaves && (op.user == k.user ==> op.start <= t.leaves[k].addedAt)
    ensures k in Apply(fk, t, op).leaves
  {
    var c := CleanedUp(t, op.user, op.releaseAt, op.dropAt);
    assert k in c.leaves && c.leaves[k].addedAt == t.leaves[k].addedAt;
    RefreshExactly(c, op, k);
    RefreshStep(fk, t, op, c);
  }

  lemma RefreshStep(fk: bool, t: Tables, op: Op, c: Tables)
    requires op.SetLeaves? && c == CleanedUp(t, op.user, op.releaseAt, op.dropAt)
    ensures Apply(fk, t, op) in
      {t, c, Refreshed(c, op.user, op.nodes, op.missingNodes, op.start, op.at, op.atMissing)}
  {}

  // ----- reserving -------------------------------------------------------------------------------------

  /** What a minimum selection takes above its target; nothing otherwise. */
  ghost function Excess(t: Tables, op: Op, total: nat): nat
    requires op.TryReserve? || op.ReserveByIds?
  {
    if op.TryReserve? && DecisionOf(t, op).Reserve? && DecisionOf(t, op).minimum && 0 < TotalSats(op.target) < total
    then total - TotalSats(op.target) else 0
  }

  /** The rows of the nodes now name the reservation; nothing else in any row differs. */
  predicate PointedAt(t: Tables, t': Tables, u: User, nodes: seq<TreeNode>, rid: ReservationId, k: Key)
  {
    if k.user == u && Names(nodes, k.id)
    then k in t.leaves && k in t'.leaves && t'.leaves[k] == t.leaves[k].(reservation := Some(rid))
    else SameRow(t, t', k)
  }

  /** An attempt that takes leaves points exactly their rows at the reservation, changes nothing else
      in any row, and opens the reservation at its time with the excess pending. */
  lemma ReserveExactly(fk: bool, t: Tables, clock: Time, op: Op)
    requires Inv(t, clock) && (op.TryReserve? || op.ReserveByIds?) && Enabled(t, op) && Taken(t, op).Some?
    requires NodeTotal(Taken(t, op).value) <= I64_MAX
    ensures var t', u, nodes := Apply(fk, t, op), op.user, Taken(t, op).value;
      && (forall k: Key :: PointedAt(t, t', u, nodes, op.rid, k))
      && t'.reservations ==
           t.reservations[Key(u, op.rid) := Reservation(op.purpose, Excess(t, op, NodeTotal(nodes)), op.now)]
      && t'.spent == t.spent && t'.chains == t.chains && t'.swaps == t.swaps
  {
    var u, nodes := op.user, Taken(t, op).value;
    TakenAreEligible(t, op, clock);
    var pending := TakingOpens(fk, t, op);
    ExcessIsPending(t, op, nodes, pending);
    forall n | n in nodes ensures Key(u, n.id) in t.leaves {
      assert Key(u, n.id) in EligibleKeys(t, u);
    }
    OpenedRows(t, u, op.rid, nodes, op.purpose, pending, op.now);
  }

  lemma ExcessIsPending(t: Tables, op: Op, nodes: seq<TreeNode>, pending: U64)
    requires (op.TryReserve? || op.ReserveByIds?) && NodeTotal(nodes) <= I64_MAX
    requires op.TryReserve? ==>
      DecisionOf(t, op).Reserve? && pending == PendingChange(nodes, TotalSats(op.target), DecisionOf(t, op).minimum)
    requires op.ReserveByIds? ==> pending == 0
    ensures pending == Excess(t, op, NodeTotal(nodes))
  {
    if op.TryReserve? {
      PendingIs(nodes, TotalSats(op.target), DecisionOf(t, op).minimum);
    }
  }

  lemma PendingIs(nodes: seq<TreeNode>, needed: U64, minimum: bool)
    requires NodeTotal(nodes) <= I64_MAX
    ensures PendingChange(nodes, needed, minimum)
      == if minimum && 0 < needed < NodeTotal(nodes) then NodeTotal(nodes) - needed else 0
  {}

  lemma OpenedRows(t: Tables, u: User, rid: ReservationId, nodes: seq<TreeNode>, purpose: Purpose, pending: U64,
                   now: Time)
    requires pending <= I64_MAX && forall n :: n in nodes ==> Key(u, n.id) in t.leaves
    ensures var t' := CreateReservation(t, u, rid, Ids(nodes), purpose, pending, now);
      && (forall k: Key :: PointedAt(t, t', u, nodes, rid, k))
      && t'.reservations == t.reservations[Key(u, rid) := Reservation(purpose, pending, now)]
      && t'.spent == t.spent && t'.chains == t.chains && t'.swaps == t.swaps
  {
    var t' := CreateReservation(t, u, rid, Ids(nodes), purpose, pending, now);
    forall k: Key ensures PointedAt(t, t', u, nodes, rid, k) {
      NamesIff(nodes, k.id);
      if k.user == u && k.id in Ids(nodes) {
        var n :| n in nodes && n.id == k.id;
        assert k == Key(u, n.id);
      }
    }
  }

  // ----- cancel_reservation ----------------------------------------------------------------------------

  /** Cancelling stores the leaves to keep, held by no reservation unless by another one, drops the
      other leaves the reservation held with their chains, and deletes the reservation. */
  lemma CancelExactly(fk: bool, t: Tables, op: Op)
    requires op.Cancel?
    ensures var t', u := Apply(fk, t, op), op.user;
      && (forall i :: LastListed(op.keep, i) ==>
           var n := op.keep[i]; Stores(t', u, n, false, OtherReservation(t, u, op.rid, Key(u, n.id)), op.at(n.id)))
      && (forall k: Key :: k.user != u || !Names(op.keep, k.id) ==>
           if HoldsRow(t, u, op.rid, k) then k !in t'.leaves else SameRow(t, t', k))
      && (forall c: ChainKey :: if HoldsRow(t, u, op.rid, Key(c.user, c.leaf)) && !Names(op.keep, c.leaf)
           then c !in t'.chains else SameChain(t, t', c))
      && t'.reservations == t.reservations - {Key(u, op.rid)}
      && t'.spent == t.spent && t'.swaps == t.swaps
  {
    var t', u, held := Apply(fk, t, op), op.user, HeldBy(t, op.user, op.rid);
    var t1 := DeleteReservation(DeleteLeaves(DeleteChains(t, u, held - Ids(op.keep)), Keys(u, held)), u, op.rid);
    CancelStep(fk, t, op);
    forall i | LastListed(op.keep, i)
      ensures var n := op.keep[i]; Stores(t', u, n, false, OtherReservation(t, u, op.rid, Key(u, n.id)), op.at(n.id))
    {
      HeldIff(t, u, op.rid, Key(u, op.keep[i].id));
      UpsertStores(t1, u, op.keep, false, op.at, i);
    }
    forall k: Key | k.user != u || !Names(op.keep, k.id)
      ensures if HoldsRow(t, u, op.rid, k) then k !in t'.leaves else SameRow(t, t', k)
    {
      HeldIff(t, u, op.rid, k);
      UpsertKeepsRest(t1, u, op.keep, false, op.at, k);
    }
    forall c: ChainKey ensures if HoldsRow(t, u, op.rid, Key(c.user, c.leaf)) && !Names(op.keep, c.leaf)
      then c !in t'.chains else SameChain(t, t', c)
    {
      HeldIff(t, u, op.rid, Key(c.user, c.leaf));
      NamesIff(op.keep, c.leaf);
    }
  }

  lemma HeldIff(t: Tables, u: User, rid: ReservationId, k: Key)
    ensures k in Keys(u, HeldBy(t, u, rid)) <==> HoldsRow(t, u, rid, k)
  {
    if k in Keys(u, HeldBy(t, u, rid)) {
      var j :| j in t.leaves && j.user == u && t.leaves[j].reservation == Some(rid) && j.id == k.id;
      assert j == k;
    }
  }

  // ----- finalize_reservation --------------------------------------------------------------------------

  /** The leaves a reservation held are gone with their chains and marked spent; a marker already
      there keeps its time. */
  ghost predicate SpendsHeld(t: Tables, t': Tables, u: User, rid: ReservationId, at: Time)
  {
    && (forall k: Key :: if HoldsRow(t, u, rid, k) && k !in t.spent then k in t'.spent && t'.spent[k] == at
          else SameMarker(t, t', k))
    && (forall c: ChainKey :: if HoldsRow(t, u, rid, Key(c.user, c.leaf)) then c !in t'.chains else SameChain(t, t', c))
  }

  lemma SpendSpendsHeld(t: Tables, u: User, rid: ReservationId, at: Time)
    ensures SpendsHeld(t, Spend(t, u, rid, HeldBy(t, u, rid), at), u, rid, at)
  {
    var t' := Spend(t, u, rid, HeldBy(t, u, rid), at);
    forall k: Key ensures if HoldsRow(t, u, rid, k) && k !in t.spent then k in t'.spent && t'.spent[k] == at
      else SameMarker(t, t', k)
    {
      HeldIff(t, u, rid, k);
    }
    forall c: ChainKey
      ensures if HoldsRow(t, u, rid, Key(c.user, c.leaf)) then c !in t'.chains else SameChain(t, t', c)
    {
      HeldIff(t, u, rid, Key(c.user, c.leaf));
    }
  }

  lemma SpendRow(t: Tables, u: User, rid: ReservationId, held: set<Id>, at: Time, k: Key)
    ensures var t' := Spend(t, u, rid, held, at);
      if HoldsRow(t, u, rid, k) then k !in t'.leaves else SameRow(t, t', k)
  {
    HeldIff(t, u, rid, k);
  }

  /** Finalizing drops the leaves that name the reservation and stores the new ones. When the
      reservation is there the dropped leaves are marked spent and lose their chains, and a swap
      with new leaves is recorded as completed; either way the reservation is gone. */
  lemma FinalizeExactly(fk: bool, t: Tables, op: Op)
    requires op.Finalize?
    ensures var t', u := Apply(fk, t, op), op.user;
      var nodes := if op.newLeaves.Some? then op.newLeaves.value else [];
      && (forall i :: LastListed(nodes, i) ==>
           var n := nodes[i]; Stores(t', u, n, false, OtherReservation(t, u, op.rid, Key(u, n.id)), op.at(n.id)))
      && (forall k: Key :: k.user != u || !Names(nodes, k.id) ==>
           if HoldsRow(t, u, op.rid, k) then k !in t'.leaves else SameRow(t, t', k))
      && (if Key(u, op.rid) in t.reservations then SpendsHeld(t, t', u, op.rid, op.spentAt)
          else t'.spent == t.spent && t'.chains == t.chains)
      && t'.reservations == t.reservations - {Key(u, op.rid)}
      && t'.swaps == (if op.newLeaves.Some? && Key(u, op.rid) in t.reservations
           && t.reservations[Key(u, op.rid)].purpose == Swap then t.swaps[u := op.swapAt] else t.swaps)
  {
    var t', u := Finalized(t, op), op.user;
    var nodes := if op.newLeaves.Some? then op.newLeaves.value else [];
    FinalizeStep(fk, t, op);
    forall i | LastListed(nodes, i)
      ensures var n := nodes[i]; Stores(t', u, n, false, OtherReservation(t, u, op.rid, Key(u, n.id)), op.at(n.id))
    {
      FinalizeStores(t, op, i);
    }
    forall k: Key | k.user != u || !Names(nodes, k.id)
      ensures if HoldsRow(t, u, op.rid, k) then k !in t'.leaves else SameRow(t, t', k)
    {
      FinalizeKeepsRest(t, op, k);
    }
    FinalizeElse(t, op);
  }

  lemma FinalizeStores(t: Tables, op: Op, i: nat)
    requires op.Finalize? && op.newLeaves.Some? && LastListed(op.newLeaves.value, i)
    ensures var n := op.newLeaves.value[i];
      Stores(Finalized(t, op), op.user, n, false, OtherReservation(t, op.user, op.rid, Key(op.user, n.id)), op.at(n.id))
  {
    var u, k := op.user, Key(op.user, op.newLeaves.value[i].id);
    var held := if IsLive(t, u, op.rid) then HeldBy(t, u, op.rid) else {};
    SpendRow(t, u, op.rid, held, op.spentAt, k);
    UpsertStores(Settled(t, u, op.rid, op.spentAt), u, op.newLeaves.value, false, op.at, i);
  }

  lemma FinalizeKeepsRest(t: Tables, op: Op, k: Key)
    requires op.Finalize?
    requires k.user != op.user || op.newLeaves.None? || !Names(op.newLeaves.value, k.id)
    ensures var t' := Finalized(t, op);
      if HoldsRow(t, op.user, op.rid, k) then k !in t'.leaves else SameRow(t, t', k)
  {
    var u := op.user;
    var held := if IsLive(t, u, op.rid) then HeldBy(t, u, op.rid) else {};
    SpendRow(t, u, op.rid, held, op.spentAt, k);
    if op.newLeaves.Some? {
      UpsertKeepsRest(Settled(t, u, op.rid, op.spentAt), u, op.newLeaves.value, false, op.at, k);
    }
  }

  lemma FinalizeElse(t: Tables, op: Op)
    requires op.Finalize?
    ensures var t', u := Finalized(t, op), op.user;
      && (if Key(u, op.rid) in t.reservations then SpendsHeld(t, t', u, op.rid, op.spentAt)
          else t'.spent == t.spent && t'.chains == t.chains)
      && t'.reservations == t.reservations - {Key(u, op.rid)}
      && t'.swaps == (if op.newLeaves.Some? && Key(u, op.rid) in t.reservations
           && t.reservations[Key(u, op.rid)].purpose == Swap then t.swaps[u := op.swapAt] else t.swaps)
  {
    var t1 := Settled(t, op.user, op.rid, op.spentAt);
    SettledElse(t, op.user, op.rid, op.spentAt);
    FinalizedIs(t, op, t1);
    if IsLive(t, op.user, op.rid) {
      SpendsHeldOnly(t, t1, Finalized(t, op), op.user, op.rid, op.spentAt);
    }
  }

  lemma FinalizedIs(t: Tables, op: Op, t1: Tables)
    requires op.Finalize? && t1 == Settled(t, op.user, op.rid, op.spentAt)
    ensures var t', u := Finalized(t, op), op.user;
      && t'.spent == t1.spent && t'.chains == t1.chains && t'.reservations == t1.reservations
      && t'.swaps == (if op.newLeaves.Some? && Key(u, op.rid) in t.reservations
           && t.reservations[Key(u, op.rid)].purpose == Swap then t1.swaps[u := op.swapAt] else t1.swaps)
  {
    if op.newLeaves.Some? {
      UpsertElse(t1, op.user, op.newLeaves.value, false, op.at);
    }
  }

  lemma UpsertElse(t: Tables, u: User, nodes: seq<TreeNode>, missing: bool, at: Id -> Time)
    ensures var t' := UpsertLeaves(t, u, nodes, missing, at);
      t'.spent == t.spent && t'.chains == t.chains && t'.reservations == t.reservations && t'.swaps == t.swaps
  {}

  lemma SettledElse(t: Tables, u: User, rid: ReservationId, at: Time)
    ensures var t' := Settled(t, u, rid, at);
      && (if Key(u, rid) in t.reservations then SpendsHeld(t, t', u, rid, at)
          else t'.spent == t.spent && t'.chains == t.chains)
      && t'.reservations == t.reservations - {Key(u, rid)} && t'.swaps == t.swaps
  {
    if IsLive(t, u, rid) {
      var t1 := Spend(t, u, rid, HeldBy(t, u, rid), at);
      SpendSpendsHeld(t, u, rid, at);
      SpendsHeldOnly(t, t1, Settled(t, u, rid, at), u, rid, at);
    } else {
      SpendNothing(t, u, rid, at);
    }
  }

  lemma SpendsHeldOnly(t: Tables, t1: Tables, t2: Tables, u: User, rid: ReservationId, at: Time)
    requires SpendsHeld(t, t1, u, rid, at) && t2.spent == t1.spent && t2.chains == t1.chains
    ensures SpendsHeld(t, t2, u, rid, at)
  {
    forall k: Key ensures if HoldsRow(t, u, rid, k) && k !in t.spent then k in t2.spent && t2.spent[k] == at
      else SameMarker(t, t2, k)
    {
      assert if HoldsRow(t, u, rid, k) && k !in t.spent then k in t1.spent && t1.spent[k] == at
        else SameMarker(t, t1, k);
    }
    forall c: ChainKey
      ensures if HoldsRow(t, u, rid, Key(c.user, c.leaf)) then c !in t2.chains else SameChain(t, t2, c)
    {
      assert if HoldsRow(t, u, rid, Key(c.user, c.leaf)) then c !in t1.chains else SameChain(t, t1, c);
    }
  }

  lemma SpendNothing(t: Tables, u: User, rid: ReservationId, at: Time)
    ensures var t' := Spend(t, u, rid, {}, at); t'.spent == t.spent && t'.chains == t.chains
  {}

  // ----- update_reservation ----------------------------------------------------------------------------

  /** Updating a reservation that is there spends the leaves it held and stores the change, then the
      reserved leaves under the reservation; a leaf in both lists ends as reserved. The reservation
      keeps its purpose and time, with nothing pending. */
  lemma UpdateExactly(fk: bool, t: Tables, op: Op)
    requires op.Update? && Key(op.user, op.rid) in t.reservations
    ensures var t', u := Apply(fk, t, op), op.user;
      && (forall i :: LastListed(op.reserved, i) ==>
           var n := op.reserved[i]; Stores(t', u, n, false, Some(op.rid), op.atReserved(n.id)))
      && (forall i :: LastListed(op.change, i) && !Names(op.reserved, op.change[i].id) ==>
           var n := op.change[i];
           Stores(t', u, n, false, OtherReservation(t, u, op.rid, Key(u, n.id)), op.atChange(n.id)))
      && (forall k: Key :: k.user != u || (!Names(op.reserved, k.id) && !Names(op.change, k.id)) ==>
           if HoldsRow(t, u, op.rid, k) then k !in t'.leaves else SameRow(t, t', k))
      && SpendsHeld(t, t', u, op.rid, op.spentAt)
      && t'.reservations == t.reservations[Key(u, op.rid) := t.reservations[Key(u, op.rid)].(pending := 0)]
      && t'.swaps == t.swaps
  {
    var t', u := Updated(t, op), op.user;
    var t1 := Spend(t, u, op.rid, HeldBy(t, u, op.rid), op.spentAt);
    UpdateStep(fk, t, op);
    forall i | LastListed(op.reserved, i)
      ensures var n := op.reserved[i]; Stores(t', u, n, false, Some(op.rid), op.atReserved(n.id))
    {
      ReplacedReserved(t1, op, i);
    }
    forall i | LastListed(op.change, i) && !Names(op.reserved, op.change[i].id)
      ensures var n := op.change[i];
        Stores(t', u, n, false, OtherReservation(t, u, op.rid, Key(u, n.id)), op.atChange(n.id))
    {
      SpendRow(t, u, op.rid, HeldBy(t, u, op.rid), op.spentAt, Key(u, op.change[i].id));
      ReplacedChange(t1, op, i);
    }
    forall k: Key | k.user != u || (!Names(op.reserved, k.id) && !Names(op.change, k.id))
      ensures if HoldsRow(t, u, op.rid, k) then k !in t'.leaves else SameRow(t, t', k)
    {
      SpendRow(t, u, op.rid, HeldBy(t, u, op.rid), op.spentAt, k);
      ReplacedRest(t1, op, k);
    }
    SpendSpendsHeld(t, u, op.rid, op.spentAt);
    ReplacedElse(t, t1, op);
    SpendsHeldOnly(t, t1, t', u, op.rid, op.spentAt);
  }

  lemma AssignedRow(t: Tables, u: User, nodes: seq<TreeNode>, rid: ReservationId, k: Key)
    ensures var t' := SetReservation(t, u, Ids(nodes), rid);
      if k in t.leaves && k.user == u && Names(nodes, k.id)
      then k in t'.leaves && t'.leaves[k] == t.leaves[k].(reservation := Some(rid)) else SameRow(t, t', k)
  {
    NamesIff(nodes, k.id);
  }

  lemma ReplacedReserved(t: Tables, op: Op, i: nat)
    requires op.Update? && IsLive(t, op.user, op.rid) && LastListed(op.reserved, i)
    ensures var n := op.reserved[i]; Stores(Replaced(t, op), op.user, n, false, Some(op.rid), op.atReserved(n.id))
  {
    var u := op.user;
    var t1 := UpsertLeaves(t, u, op.change, false, op.atChange);
    UpsertStores(t1, u, op.reserved, false, op.atReserved, i);
    AssignedRow(UpsertLeaves(t1, u, op.reserved, false, op.atReserved), u, op.reserved, op.rid,
      Key(u, op.reserved[i].id));
  }

  lemma ReplacedChange(t: Tables, op: Op, i: nat)
    requires op.Update? && IsLive(t, op.user, op.rid) && LastListed(op.change, i)
    requires !Names(op.reserved, op.change[i].id)
    ensures var n := op.change[i];
      Stores(Replaced(t, op), op.user, n, false, ReservationOf(t, Key(op.user, n.id)), op.atChange(n.id))
  {
    var u, k := op.user, Key(op.user, op.change[i].id);
    var t1 := UpsertLeaves(t, u, op.change, false, op.atChange);
    UpsertStores(t, u, op.change, false, op.atChange, i);
    UpsertKeepsRest(t1, u, op.reserved, false, op.atReserved, k);
    AssignedRow(UpsertLeaves(t1, u, op.reserved, false, op.atReserved), u, op.reserved, op.rid, k);
  }

  lemma ReplacedRest(t: Tables, op: Op, k: Key)
    requires op.Update? && IsLive(t, op.user, op.rid)
    requires k.user != op.user || (!Names(op.reserved, k.id) && !Names(op.change, k.id))
    ensures SameRow(t, Replaced(t, op), k)
  {
    var u := op.user;
    var t1 := UpsertLeaves(t, u, op.change, false, op.atChange);
    UpsertKeepsRest(t, u, op.change, false, op.atChange, k);
    UpsertKeepsRest(t1, u, op.reserved, false, op.atReserved, k);
    AssignedRow(UpsertLeaves(t1, u, op.reserved, false, op.atReserved), u, op.reserved, op.rid, k);
  }

  lemma ReplacedElse(t: Tables, t1: Tables, op: Op)
    requires op.Update? && IsLive(t, op.user, op.rid)
    requires t1 == Spend(t, op.user, op.rid, HeldBy(t, op.user, op.rid), op.spentAt)
    ensures var t', u := Replaced(t1, op), op.user;
      && t'.spent == t1.spent && t'.chains == t1.chains && t'.swaps == t.swaps
      && t'.reservations == t.reservations[Key(u, op.rid) := t.reservations[Key(u, op.rid)].(pending := 0)]
  {}

  /** An update of a reservation that is not there changes nothing. */
  lemma UpdateNeedsReservation(fk: bool, t: Tables, op: Op)
    requires op.Update? && Key(op.user, op.rid) !in t.reservations
    ensures Apply(fk, t, op) == t
  {}

  // ----- what is spendable and what is pending ---------------------------------------------------------

  /** Taking leaves makes them unspendable and the excess pending, by exactly their values. */
  lemma ReserveShiftsTotals(fk: bool, t: Tables, clock: Time, op: Op)
    requires Inv(t, clock) && (op.TryReserve? || op.ReserveByIds?) && Enabled(t, op) && Taken(t, op).Some?
    requires NodeTotal(Taken(t, op).value) <= I64_MAX
    ensures var t', u, total := Apply(fk, t, op), op.user, NodeTotal(Taken(t, op).value);
      && EligibleTotal(t', u) == EligibleTotal(t, u) - total
      && PendingTotal(t', u) == PendingTotal(t, u) + Excess(t, op, total)
  {
    var t', u, nodes := Apply(fk, t, op), op.user, Taken(t, op).value;
    ReserveExactly(fk, t, clock, op);
    TakenAreEligible(t, op, clock);
    forall n | n in nodes ensures Key(u, n.id) in t.leaves && t.leaves[Key(u, n.id)].value == n.value {
      assert Key(u, n.id) in EligibleKeys(t, u) && LeafOk(t, clock, Key(u, n.id));
      PartOfTotal(nodes, n);
    }
    RowsTotalNodes(t.leaves, u, nodes);
    EligibleAfterTaking(t, t', u, op.rid, nodes);
    PendingAfterOpening(t, t', u, op.rid);
  }

  lemma {:induction false} PartOfTotal(nodes: seq<TreeNode>, n: TreeNode)
    requires n in nodes
    ensures n.value <= NodeTotal(nodes)
    decreases nodes
  {
    if nodes[0] != n {
      PartOfTotal(nodes[1..], n);
    }
  }

  lemma EligibleAfterTaking(t: Tables, t': Tables, u: User, rid: ReservationId, nodes: seq<TreeNode>)
    requires forall k: Key :: PointedAt(t, t', u, nodes, rid, k)
    requires forall n :: n in nodes ==> Key(u, n.id) in EligibleKeys(t, u)
    ensures EligibleTotal(t', u) == EligibleTotal(t, u) - Sum(Keys(u, Ids(nodes)), ValueColumn(t.leaves))
  {
    var taken, before := Keys(u, Ids(nodes)), EligibleKeys(t, u);
    forall k: Key ensures k in EligibleKeys(t', u) <==> k in before - taken
      ensures k in before - taken ==> ValueColumn(t'.leaves)(k) == ValueColumn(t.leaves)(k)
    {
      assert PointedAt(t, t', u, nodes, rid, k);
      NamesIff(nodes, k.id);
    }
    forall k | k in taken ensures k in before {
      var n :| n in nodes && n.id == k.id;
      assert k == Key(u, n.id);
    }
    assert EligibleKeys(t', u) == before - taken;
    SumSplit(before, taken, ValueColumn(t.leaves));
    SumSame(before - taken, ValueColumn(t'.leaves), ValueColumn(t.leaves));
  }

  lemma PendingAfterOpening(t: Tables, t': Tables, u: User, rid: ReservationId)
    requires Key(u, rid) !in t.reservations && Key(u, rid) in t'.reservations
    requires t'.reservations == t.reservations[Key(u, rid) := t'.reservations[Key(u, rid)]]
    ensures PendingTotal(t', u) == PendingTotal(t, u) + t'.reservations[Key(u, rid)].pending
  {
    var k, before := Key(u, rid), UserReservations(t, u);
    assert UserReservations(t', u) == before + {k};
    SumRemove(before + {k}, PendingColumn(t'.reservations), k);
    assert before + {k} - {k} == before;
    SumSame(before, PendingColumn(t'.reservations), PendingColumn(t.reservations));
  }

  /** Cancelling, finalizing or updating a reservation takes what was pending with it out of the
      total. */
  lemma ClosingShiftsPending(fk: bool, t: Tables, op: Op)
    requires op.Cancel? || op.Finalize? || op.Update?
    ensures var k := Key(op.user, op.rid);
      PendingTotal(Apply(fk, t, op), op.user)
      == PendingTotal(t, op.user) - if k in t.reservations then t.reservations[k].pending else 0
  {
    if op.Cancel? {
      CancelExactly(fk, t, op);
    } else if op.Finalize? {
      FinalizeExactly(fk, t, op);
    } else if Key(op.user, op.rid) in t.reservations {
      UpdateExactly(fk, t, op);
    } else {
      UpdateNeedsReservation(fk, t, op);
    }
    PendingWithout(t, Apply(fk, t, op), op.user, op.rid);
  }

  lemma PendingWithout(t: Tables, t': Tables, u: User, rid: ReservationId)
    requires t'.reservations == t.reservations - {Key(u, rid)}
      || (Key(u, rid) in t.reservations
          && t'.reservations == t.reservations[Key(u, rid) := t.reservations[Key(u, rid)].(pending := 0)])
      || (Key(u, rid) !in t.reservations && t'.reservations == t.reservations)
    ensures PendingTotal(t', u)
      == PendingTotal(t, u) - if Key(u, rid) in t.reservations then t.reservations[Key(u, rid)].pending else 0
  {
    var k, before, after := Key(u, rid), UserReservations(t, u), UserReservations(t', u);
    var f, f' := PendingColumn(t.reservations), PendingColumn(t'.reservations);
    if k in t.reservations {
      SumRemove(before, f, k);
      if k in t'.reservations {
        SumRemove(after, f', k);
      }
    }
    assert before - {k} == after - {k} == if k in t'.reservations then after - {k} else after;
    SumSame(before - {k}, f', f);
    if k !in t.reservations {
      assert before - {k} == before;
    }
  }

  // ----- set_leaves ------------------------------------------------------------------------------------

  /** The cleanup of a refresh frees the leaves whose reservation is more than five minutes old at
      the first clock reading and deletes the reservations more than five minutes old at the second. */
  lemma CleanupExactly(t: Tables, u: User, releaseAt: Time, dropAt: Time)
    ensures var t' := CleanedUp(t, u, releaseAt, dropAt);
      && (forall k: Key :: k in t'.leaves <==> k in t.leaves)
      && (forall k: Key :: k in t.leaves ==>
           var row := t.leaves[k];
           var stale := k.user == u && row.reservation.Some? && Key(u, row.reservation.value) in t.reservations
             && t.reservations[Key(u, row.reservation.value)].createdAt + FIVE_MINUTES < releaseAt;
           t'.leaves[k] == if stale then row.(reservation := None) else row)
      && (forall r: Key ::
           if r in t.reservations && (r.user != u || t.reservations[r].createdAt + FIVE_MINUTES >= dropAt)
           then r in t'.reservations && t'.reservations[r] == t.reservations[r] else r !in t'.reservations)
      && t'.spent == t.spent && t'.chains == t.chains && t'.swaps == t.swaps
  {}

  /** A swap reservation at most five minutes old. */
  predicate YoungSwap(t: Tables, u: User, now: Time)
  {
    exists r: Key :: r in t.reservations && r.user == u && t.reservations[r].purpose == Swap
      && t.reservations[r].createdAt + FIVE_MINUTES >= now
  }

  /** Some leaf is held by a reservation that passes five minutes between the two readings. */
  predicate TimesOutBetween(t: Tables, u: User, releaseAt: Time, dropAt: Time)
  {
    exists k: Key :: k in t.leaves && k.user == u && t.leaves[k].reservation.Some?
      && Key(u, t.leaves[k].reservation.value) in t.reservations
      && releaseAt <= t.reservations[Key(u, t.leaves[k].reservation.value)].createdAt + FIVE_MINUTES < dropAt
  }

  /** A refresh fails and changes nothing exactly when foreign keys see a reservation time out
      between the cleanup's two statements; with a young swap, or one completed since the refresh
      began, it only cleans up; otherwise it cleans up and proceeds. */
  lemma SetLeavesOutcome(fk: bool, t: Tables, clock: Time, op: Op)
    requires op.SetLeaves? && Inv(t, clock) && op.releaseAt <= op.dropAt
    ensures var u, c := op.user, CleanedUp(t, op.user, op.releaseAt, op.dropAt);
      Apply(fk, t, op) ==
        if fk && TimesOutBetween(t, u, op.releaseAt, op.dropAt) then t
        else if YoungSwap(t, u, op.dropAt) || (u in t.swaps && t.swaps[u] >= op.start) then c
        else Refreshed(c, u, op.nodes, op.missingNodes, op.start, op.at, op.atMissing)
  {
    var u := op.user;
    InvMeansLinked(t, clock, u);
    CleanupDanglesIffTimeoutBetween(t, u, op.releaseAt, op.dropAt);
    assert NoneBetween(t, u, op.releaseAt, op.dropAt) <==> !TimesOutBetween(t, u, op.releaseAt, op.dropAt);
    if OutcomeOfRefresh(fk, t, op) != Failed {
      RefreshSkippedIff(fk, t, op);
      assert HasYoungSwap(t, u, op.dropAt) <==> YoungSwap(t, u, op.dropAt);
    }
    OutcomeStep(fk, t, op);
  }

  lemma OutcomeStep(fk: bool, t: Tables, op: Op)
    requires op.SetLeaves?
    ensures var u, c := op.user, CleanedUp(t, op.user, op.releaseAt, op.dropAt);
      && (OutcomeOfRefresh(fk, t, op) == Failed <==> fk && !NoDangling(c, u))
      && Apply(fk, t, op) == match OutcomeOfRefresh(fk, t, op)
           case Failed => t
           case Skipped => c
           case Proceeded => Refreshed(c, u, op.nodes, op.missingNodes, op.start, op.at, op.atMissing)
  {}

  predicate MarkedSince(t: Tables, u: User, id: Id, start: Time)
  {
    Key(u, id) in t.spent && t.spent[Key(u, id)] >= start
  }

  predicate StaleRow(t: Tables, u: User, start: Time, k: Key)
  {
    k.user == u && k in t.leaves && t.leaves[k].reservation.None? && t.leaves[k].addedAt < start
  }

  predicate Reports(op: Op, id: Id)
    requires op.SetLeaves?
  {
    Names(op.nodes, id) || Names(op.missingNodes, id)
  }

  /** The refresh reports the leaf and no operation has marked it spent since the refresh began. */
  predicate PutsBack(c: Tables, op: Op, k: Key)
    requires op.SetLeaves?
  {
    k.user == op.user && Reports(op, k.id) && !MarkedSince(c, op.user, k.id, op.start)
  }

  /** After its cleanup, a refresh that proceeds stores each reported leaf not spent since it began,
      as last listed among the missing ones or else among the held ones, under the reservation it
      had. It drops the other leaves that no reservation holds and that were added before it began.
      A dropped leaf it does not report loses its chain, and markers more than five minutes older
      than its start go. */
  lemma RefreshedExactly(c: Tables, op: Op)
    requires op.SetLeaves?
    ensures var u := op.user;
      var t' := Refreshed(c, u, op.nodes, op.missingNodes, op.start, op.at, op.atMissing);
      && (forall i :: LastListed(op.missingNodes, i) && PutsBack(c, op, Key(u, op.missingNodes[i].id)) ==>
           var n := op.missingNodes[i]; Stores(t', u, n, true, ReservationOf(c, Key(u, n.id)), op.atMissing(n.id)))
      && (forall i :: LastListed(op.nodes, i) && !Names(op.missingNodes, op.nodes[i].id)
                      && PutsBack(c, op, Key(u, op.nodes[i].id)) ==>
           var n := op.nodes[i]; Stores(t', u, n, false, ReservationOf(c, Key(u, n.id)), op.at(n.id)))
      && (forall k: Key :: !PutsBack(c, op, k) ==>
           if StaleRow(c, u, op.start, k) then k !in t'.leaves else SameRow(c, t', k))
      && (forall k: Key :: if k.user == u && k in c.spent && c.spent[k] + FIVE_MINUTES < op.start
           then k !in t'.spent else SameMarker(c, t', k))
      && (forall h: ChainKey ::
           if StaleRow(c, u, op.start, Key(h.user, h.leaf)) && !Reports(op, h.leaf)
           then h !in t'.chains else SameChain(c, t', h))
      && t'.reservations == c.reservations && t'.swaps == c.swaps
  {
    var u := op.user;
    var t' := Refreshed(c, u, op.nodes, op.missingNodes, op.start, op.at, op.atMissing);
    forall i | LastListed(op.missingNodes, i) && PutsBack(c, op, Key(u, op.missingNodes[i].id))
      ensures var n := op.missingNodes[i]; Stores(t', u, n, true, ReservationOf(c, Key(u, n.id)), op.atMissing(n.id))
    {
      RefreshedMissing(c, op, i);
    }
    forall i | LastListed(op.nodes, i) && PutsBack(c, op, Key(u, op.nodes[i].id))
        && !Names(op.missingNodes, op.nodes[i].id)
      ensures var n := op.nodes[i]; Stores(t', u, n, false, ReservationOf(c, Key(u, n.id)), op.at(n.id))
    {
      RefreshedHeld(c, op, i);
    }
    forall k: Key | !PutsBack(c, op, k)
      ensures if StaleRow(c, u, op.start, k) then k !in t'.leaves else SameRow(c, t', k)
    {
      RefreshedRest(c, op, k);
    }
    RefreshedElse(c, op, DropOldMarkers(c, u, op.start - SPENT_MARKER_CLEANUP_THRESHOLD));
  }

  lemma MarkedIff(c: Tables, u: User, id: Id, start: Time)
    ensures id in RecentlySpent(c, u, start) <==> MarkedSince(c, u, id, start)
  {
    if id in RecentlySpent(c, u, start) {
      var k :| k in c.spent && k.user == u && c.spent[k] >= start && k.id == id;
      assert k == Key(u, id);
    }
  }

  lemma RefreshedMissing(c: Tables, op: Op, i: int)
    requires op.SetLeaves? && LastListed(op.missingNodes, i) && PutsBack(c, op, Key(op.user, op.missingNodes[i].id))
    ensures var n := op.missingNodes[i];
      Stores(Refreshed(c, op.user, op.nodes, op.missingNodes, op.start, op.at, op.atMissing), op.user, n, true,
             ReservationOf(c, Key(op.user, n.id)), op.atMissing(n.id))
  {
    var k := Key(op.user, op.missingNodes[i].id);
    LastListedIsLast(op.missingNodes, i);
    MarkedIff(c, op.user, k.id, op.start);
    RefreshExactly(c, op, k);
  }

  lemma RefreshedHeld(c: Tables, op: Op, i: int)
    requires op.SetLeaves? && LastListed(op.nodes, i) && PutsBack(c, op, Key(op.user, op.nodes[i].id))
    requires !Names(op.missingNodes, op.nodes[i].id)
    ensures var n := op.nodes[i];
      Stores(Refreshed(c, op.user, op.nodes, op.missingNodes, op.start, op.at, op.atMissing), op.user, n, false,
             ReservationOf(c, Key(op.user, n.id)), op.at(n.id))
  {
    var k := Key(op.user, op.nodes[i].id);
    LastListedIsLast(op.nodes, i);
    NamesIff(op.missingNodes, k.id);
    MarkedIff(c, op.user, k.id, op.start);
    RefreshExactly(c, op, k);
  }

  lemma RefreshedRest(c: Tables, op: Op, k: Key)
    requires op.SetLeaves? && !PutsBack(c, op, k)
    ensures var t' := Refreshed(c, op.user, op.nodes, op.missingNodes, op.start, op.at, op.atMissing);
      if StaleRow(c, op.user, op.start, k) then k !in t'.leaves else SameRow(c, t', k)
  {
    NamesIff(op.nodes, k.id);
    NamesIff(op.missingNodes, k.id);
    MarkedIff(c, op.user, k.id, op.start);
    RefreshExactly(c, op, k);
  }

  lemma RefreshedElse(c: Tables, op: Op, t1: Tables)
    requires op.SetLeaves? && t1 == DropOldMarkers(c, op.user, op.start - SPENT_MARKER_CLEANUP_THRESHOLD)
    ensures var u := op.user;
      var t' := Refreshed(c, u, op.nodes, op.missingNodes, op.start, op.at, op.atMissing);
      && (forall k: Key :: if k.user == u && k in c.spent && c.spent[k] + FIVE_MINUTES < op.start
           then k !in t'.spent else SameMarker(c, t', k))
      && (forall h: ChainKey ::
           if StaleRow(c, u, op.start, Key(h.user, h.leaf)) && !Reports(op, h.leaf)
           then h !in t'.chains else SameChain(c, t', h))
      && t'.reservations == c.reservations && t'.swaps == c.swaps
  {
    var u, spentIds := op.user, RecentlySpent(t1, op.user, op.start);
    var t2 := WithoutStale(t1, u, op.start, Ids(op.nodes) + Ids(op.missingNodes));
    RefreshedIs(c, u, op.nodes, op.missingNodes, op.start, op.at, op.atMissing, t1, spentIds);
    PutElse(t2, u, Without(op.nodes, spentIds), Without(op.missingNodes, spentIds), op.at, op.atMissing);
    DeletedElse(c, op, t1, t2);
  }

  lemma DeletedElse(c: Tables, op: Op, t1: Tables, t2: Tables)
    requires op.SetLeaves? && t1 == DropOldMarkers(c, op.user, op.start - SPENT_MARKER_CLEANUP_THRESHOLD)
    requires t2 == WithoutStale(t1, op.user, op.start, Ids(op.nodes) + Ids(op.missingNodes))
    ensures forall k: Key :: if k.user == op.user && k in c.spent && c.spent[k] + FIVE_MINUTES < op.start
      then k !in t2.spent else SameMarker(c, t2, k)
    ensures forall h: ChainKey ::
      if StaleRow(c, op.user, op.start, Key(h.user, h.leaf)) && !Reports(op, h.leaf)
      then h !in t2.chains else SameChain(c, t2, h)
    ensures t2.reservations == c.reservations && t2.swaps == c.swaps
  {
    var u := op.user;
    WithoutStaleElse(t1, u, op.start, Ids(op.nodes) + Ids(op.missingNodes));
    forall h: ChainKey
      ensures if StaleRow(c, u, op.start, Key(h.user, h.leaf)) && !Reports(op, h.leaf)
        then h !in t2.chains else SameChain(c, t2, h)
    {
      NamesIff(op.nodes, h.leaf);
      NamesIff(op.missingNodes, h.leaf);
    }
  }

  lemma PutElse(t: Tables, u: User, nodes: seq<TreeNode>, missingNodes: seq<TreeNode>, at: Id -> Time,
                atMissing: Id -> Time)
    ensures var t' := PutReported(t, u, nodes, missingNodes, at, atMissing);
      t'.spent == t.spent && t'.chains == t.chains && t'.reservations == t.reservations && t'.swaps == t.swaps
  {}

  lemma WithoutStaleElse(t: Tables, u: User, start: Time, reported: set<Id>)
    ensures var t' := WithoutStale(t, u, start, reported);
      && (forall h: ChainKey :: if StaleRow(t, u, start, Key(h.user, h.leaf)) && h.leaf !in reported
           then h !in t'.chains else SameChain(t, t', h))
      && t'.spent == t.spent && t'.reservations == t.reservations && t'.swaps == t.swaps
  {
    forall h: ChainKey | h in t.chains && h.user == u
      ensures h.leaf in StaleLeaves(t, u, start) <==> StaleRow(t, u, start, Key(u, h.leaf))
    {
      if h.leaf in StaleLeaves(t, u, start) {
        var k :| k in t.leaves && k.user == u && t.leaves[k].reservation.None? && t.leaves[k].addedAt < start
          && k.id == h.leaf;
        assert k == Key(u, h.leaf);
      }
    }
  }

  // ----- store_ancestors -------------------------------------------------------------------------------

  /** A pedigree whose leaf is pooled and whose chain is known. */
  predicate Chained(t: Tables, u: User, p: Pedigree) { Key(u, p.leaf.id) in t.leaves && p.ancestors != [] }

  /** No pedigree of the list gives the leaf an ancestor this one gives it. */
  ghost predicate Apart(t: Tables, u: User, p: Pedigree, ps: seq<Pedigree>)
  {
    forall q, n, m :: q in ps && Chained(t, u, q) && q.leaf.id == p.leaf.id && n in p.ancestors && m in q.ancestors ==>
      n.id != m.id
  }

  /** No leaf is given the same ancestor twice. */
  ghost predicate NoRepeat(t: Tables, u: User, ps: seq<Pedigree>)
    decreases ps
  {
    ps != [] ==>
      && NoRepeat(t, u, ps[1..])
      && (Chained(t, u, ps[0]) ==> DistinctNodes(ps[0].ancestors) && Apart(t, u, ps[0], ps[1..]))
  }

  predicate RowsApart(a: seq<ChainRow>, b: seq<ChainRow>)
  {
    forall x, y :: x in a && y in b ==> x.leaf != y.leaf || x.node.id != y.node.id
  }

  lemma DistinctConcat(a: seq<ChainRow>, b: seq<ChainRow>)
    ensures DistinctRows(a + b) <==> DistinctRows(a) && DistinctRows(b) && RowsApart(a, b)
  {
    if DistinctRows(a + b) {
      forall i, j | 0 <= i < j < |a| ensures a[i].leaf != a[j].leaf || a[i].node.id != a[j].node.id {
        assert (a + b)[i] == a[i] && (a + b)[j] == a[j];
      }
      forall i, j | 0 <= i < j < |b| ensures b[i].leaf != b[j].leaf || b[i].node.id != b[j].node.id {
        assert (a + b)[|a| + i] == b[i] && (a + b)[|a| + j] == b[j];
      }
      forall x, y | x in a && y in b ensures x.leaf != y.leaf || x.node.id != y.node.id {
        var i :| 0 <= i < |a| && a[i] == x;
        var j :| 0 <= j < |b| && b[j] == y;
        assert (a + b)[i] == x && (a + b)[|a| + j] == y;
      }
    }
  }

  lemma DistinctOfOne(leaf: Id, ancestors: seq<TreeNode>)
    ensures DistinctRows(RowsOf(leaf, ancestors)) <==> DistinctNodes(ancestors)
  {
    var rows := RowsOf(leaf, ancestors);
    if DistinctRows(rows) {
      forall i, j | 0 <= i < j < |ancestors| ensures ancestors[i].id != ancestors[j].id {
        assert rows[i].leaf == rows[j].leaf;
      }
    }
  }

  lemma {:induction false} StorableIff(t: Tables, u: User, ps: seq<Pedigree>, p: Pedigree)
    ensures p in Storable(t, u, ps) <==> p in ps && Chained(t, u, p)
    decreases ps
  {
    if ps != [] {
      StorableIff(t, u, ps[1..], p);
      assert ps == [ps[0]] + ps[1..];
    }
  }

  lemma StoredRowIff(t: Tables, u: User, ps: seq<Pedigree>, r: ChainRow)
    ensures r in ChainRows(Storable(t, u, ps)) <==>
      exists p :: p in ps && Chained(t, u, p) && p.leaf.id == r.leaf && r.node in p.ancestors
  {
    ExitChains.ChainRowOrigin(Storable(t, u, ps), r);
    forall p ensures p in Storable(t, u, ps) <==> p in ps && Chained(t, u, p) {
      StorableIff(t, u, ps, p);
    }
  }

  /** The primary key admits the rows exactly when no leaf is given the same ancestor twice. */
  lemma {:induction false} AdmittedIff(t: Tables, u: User, ps: seq<Pedigree>)
    ensures DistinctRows(ChainRows(Storable(t, u, ps))) <==> NoRepeat(t, u, ps)
    decreases ps
  {
    if ps != [] {
      AdmittedIff(t, u, ps[1..]);
      var p, rest := ps[0], Storable(t, u, ps[1..]);
      if Chained(t, u, p) {
        var s := [p] + rest;
        assert s[1..] == rest && Storable(t, u, ps) == s;
        DistinctConcat(RowsOf(p.leaf.id, p.ancestors), ChainRows(rest));
        DistinctOfOne(p.leaf.id, p.ancestors);
        if Apart(t, u, p, ps[1..]) {
          ApartGivesRows(t, u, p, ps[1..]);
        }
        if RowsApart(RowsOf(p.leaf.id, p.ancestors), ChainRows(rest)) {
          RowsGiveApart(t, u, p, ps[1..]);
        }
      } else {
        assert Storable(t, u, ps) == rest;
      }
    }
  }

  lemma ApartGivesPair(t: Tables, u: User, p: Pedigree, ps: seq<Pedigree>, x: ChainRow, y: ChainRow)
    requires Apart(t, u, p, ps) && y in ChainRows(Storable(t, u, ps))
    requires x.leaf == p.leaf.id && x.node in p.ancestors
    ensures x.leaf != y.leaf || x.node.id != y.node.id
  {
    StoredRowIff(t, u, ps, y);
    var q :| q in ps && Chained(t, u, q) && q.leaf.id == y.leaf && y.node in q.ancestors;
  }

  lemma ApartGivesRows(t: Tables, u: User, p: Pedigree, ps: seq<Pedigree>)
    requires Apart(t, u, p, ps)
    ensures RowsApart(RowsOf(p.leaf.id, p.ancestors), ChainRows(Storable(t, u, ps)))
  {
    var own := RowsOf(p.leaf.id, p.ancestors);
    forall x, y | x in own && y in ChainRows(Storable(t, u, ps))
      ensures x.leaf != y.leaf || x.node.id != y.node.id
    {
      var i :| 0 <= i < |own| && own[i] == x;
      assert x == ChainRow(p.leaf.id, p.ancestors[i]);
      ApartGivesPair(t, u, p, ps, x, y);
    }
  }

  lemma RowsGiveApart(t: Tables, u: User, p: Pedigree, ps: seq<Pedigree>)
    requires RowsApart(RowsOf(p.leaf.id, p.ancestors), ChainRows(Storable(t, u, ps)))
    ensures Apart(t, u, p, ps)
  {
    forall q, n, m | q in ps && Chained(t, u, q) && q.leaf.id == p.leaf.id && n in p.ancestors && m in q.ancestors
      ensures n.id != m.id
    {
      OwnRow(p.leaf.id, p.ancestors, n);
      StoredRowIff(t, u, ps, ChainRow(q.leaf.id, m));
    }
  }

  lemma OwnRow(leaf: Id, ancestors: seq<TreeNode>, n: TreeNode)
    requires n in ancestors
    ensures ChainRow(leaf, n) in RowsOf(leaf, ancestors)
  {
    var i :| 0 <= i < |ancestors| && ancestors[i] == n;
    assert RowsOf(leaf, ancestors)[i] == ChainRow(leaf, n);
  }

  predicate GivenChain(t: Tables, u: User, ps: seq<Pedigree>, leaf: Id)
  {
    exists p :: p in ps && Chained(t, u, p) && p.leaf.id == leaf
  }

  /** Storing ancestors replaces the whole chain of each pooled leaf given a known one and touches
      no other chain; when some leaf is given the same ancestor twice it changes nothing. */
  lemma StoreExactly(fk: bool, t: Tables, op: Op)
    requires op.StoreAncestors?
    ensures var t', u, ps := Apply(fk, t, op), op.user, op.pedigrees;
      if !NoRepeat(t, u, ps) then t' == t else
      && (forall p, n :: p in ps && Chained(t, u, p) && n in p.ancestors ==>
           var c := ChainKey(u, p.leaf.id, n.id); c in t'.chains && t'.chains[c] == n)
      && (forall c: ChainKey :: c in t'.chains && c.user == u && GivenChain(t, u, ps, c.leaf) ==>
           exists q :: q in ps && Chained(t, u, q) && q.leaf.id == c.leaf && t'.chains[c] in q.ancestors)
      && (forall c: ChainKey :: c.user != u || !GivenChain(t, u, ps, c.leaf) ==> SameChain(t, t', c))
      && t'.leaves == t.leaves && t'.reservations == t.reservations && t'.spent == t.spent && t'.swaps == t.swaps
  {
    var u, ps := op.user, op.pedigrees;
    StoreStep(fk, t, op);
    AdmittedIff(t, u, ps);
    if NoRepeat(t, u, ps) {
      var live := Storable(t, u, ps);
      StoredChains(t, u, ps, DeleteChains(t, u, LeafIds(live)), ChainRows(live));
    }
  }

  lemma StoreStep(fk: bool, t: Tables, op: Op)
    requires op.StoreAncestors?
    ensures Apply(fk, t, op) == StoreChains(t, op.user, op.pedigrees)
  {}

  lemma StoredChains(t: Tables, u: User, ps: seq<Pedigree>, t1: Tables, rows: seq<ChainRow>)
    requires t1 == DeleteChains(t, u, LeafIds(Storable(t, u, ps))) && rows == ChainRows(Storable(t, u, ps))
    requires DistinctRows(rows)
    ensures var t' := InsertChains(t1, u, rows);
      && (forall p, n :: p in ps && Chained(t, u, p) && n in p.ancestors ==>
           var c := ChainKey(u, p.leaf.id, n.id); c in t'.chains && t'.chains[c] == n)
      && (forall c: ChainKey :: c in t'.chains && c.user == u && GivenChain(t, u, ps, c.leaf) ==>
           exists q :: q in ps && Chained(t, u, q) && q.leaf.id == c.leaf && t'.chains[c] in q.ancestors)
      && (forall c: ChainKey :: c.user != u || !GivenChain(t, u, ps, c.leaf) ==> SameChain(t, t', c))
      && t'.leaves == t.leaves && t'.reservations == t.reservations && t'.spent == t.spent && t'.swaps == t.swaps
  {
    var t' := InsertChains(t1, u, rows);
    ExitChains.InsertChainsStores(t1, u, rows);
    InsertChainsOnlyAdds(t1, u, rows);
    forall p, n | p in ps && Chained(t, u, p) && n in p.ancestors
      ensures var c := ChainKey(u, p.leaf.id, n.id); c in t'.chains && t'.chains[c] == n
    {
      var r := ChainRow(p.leaf.id, n);
      StoredRowIff(t, u, ps, r);
      assert r in rows && ChainKeyOf(u, r) == ChainKey(u, p.leaf.id, n.id);
    }
    forall c: ChainKey | c in t'.chains && c.user == u && GivenChain(t, u, ps, c.leaf)
      ensures exists q :: q in ps && Chained(t, u, q) && q.leaf.id == c.leaf && t'.chains[c] in q.ancestors
    {
      var p :| p in ps && Chained(t, u, p) && p.leaf.id == c.leaf;
      StorableIff(t, u, ps, p);
      assert c.leaf in LeafIds(Storable(t, u, ps)) && c !in t1.chains;
      var r :| r in rows && c == ChainKeyOf(u, r);
      StoredRowIff(t, u, ps, r);
      assert t'.chains[c] == r.node;
    }
    forall c: ChainKey | c.user != u || !GivenChain(t, u, ps, c.leaf)
      ensures SameChain(t, t', c)
    {
      OthersStay(t, u, ps, c);
    }
  }

  lemma OthersStay(t: Tables, u: User, ps: seq<Pedigree>, c: ChainKey)
    requires c.user != u || !GivenChain(t, u, ps, c.leaf)
    requires DistinctRows(ChainRows(Storable(t, u, ps)))
    ensures SameChain(t, InsertChains(DeleteChains(t, u, LeafIds(Storable(t, u, ps))), u,
      ChainRows(Storable(t, u, ps))), c)
  {
    var live := Storable(t, u, ps);
    var t1, rows := DeleteChains(t, u, LeafIds(live)), ChainRows(live);
    ExitChains.InsertChainsStores(t1, u, rows);
    InsertChainsOnlyAdds(t1, u, rows);
    forall r | r in rows ensures c != ChainKeyOf(u, r) {
      StoredRowIff(t, u, ps, r);
    }
    assert c.user == u ==> c.leaf !in LeafIds(live) by {
      forall p ensures p in live <==> p in ps && Chained(t, u, p) {
        StorableIff(t, u, ps, p);
      }
    }
  }
}

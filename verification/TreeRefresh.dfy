/** What a refresh does: its exact result, when it is held back by a swap, and why a spent leaf
    does not come back. */
module TreeRefresh {
  import opened Base
  import opened TreeTables
  import opened LeafSelection
  import opened TreeOps
  import opened TreeInvariants

  // ----- the exact result --------------------------------------------------------------------------

  lemma {:induction false} LastOfWithout(nodes: seq<TreeNode>, skip: set<Id>, id: Id)
    requires id in Ids(nodes) && id !in skip
    ensures id in Ids(Without(nodes, skip)) && LastOf(Without(nodes, skip), id) == LastOf(nodes, id)
    decreases nodes
  {
    WithoutIds(nodes, skip);
    WithoutInit(nodes, skip);
    var last, init := nodes[|nodes| - 1], nodes[..|nodes| - 1];
    var kept := Without(nodes, skip);
    if last.id in skip {
      assert kept == Without(init, skip);
    } else {
      assert kept[|kept| - 1] == last && kept[..|kept| - 1] == Without(init, skip);
    }
    if last.id != id {
      assert nodes == init + [last];
      IdsConcat(init, [last]);
      LastOfWithout(init, skip, id);
    }
  }

  lemma {:induction false} WithoutInit(nodes: seq<TreeNode>, skip: set<Id>)
    requires nodes != []
    ensures Without(nodes, skip)
      == Without(nodes[..|nodes| - 1], skip) + (if nodes[|nodes| - 1].id in skip then [] else [nodes[|nodes| - 1]])
    decreases nodes
  {
    if |nodes| > 1 {
      WithoutInit(nodes[1..], skip);
      assert nodes[1..][..|nodes| - 2] == nodes[..|nodes| - 1][1..];
    }
  }

  /** Another tenant's leaf, a reserved leaf, or one added after the refresh began. */
  predicate Survives(t: Tables, u: User, start: Time, k: Key)
    requires k in t.leaves
  {
    k.user != u || t.leaves[k].reservation.Some? || t.leaves[k].addedAt >= start
  }

  function RowAfterPut(t: Tables, u: User, nodes: seq<TreeNode>, missingNodes: seq<TreeNode>,
                       at: Id -> Time, atMissing: Id -> Time, k: Key): Option<LeafRow>
  {
    var reservation := if k in t.leaves then t.leaves[k].reservation else None;
    if k.user == u && k.id in Ids(missingNodes) then
      Some(RowOf(LastOf(missingNodes, k.id), true, reservation, atMissing(k.id)))
    else if k.user == u && k.id in Ids(nodes) then
      Some(RowOf(LastOf(nodes, k.id), false, reservation, at(k.id)))
    else if k in t.leaves then Some(t.leaves[k])
    else None
  }

  function RowAt(t: Tables, k: Key): Option<LeafRow>
  {
    if k in t.leaves then Some(t.leaves[k]) else None
  }

  /** What the row of leaf `k` is after a refresh that proceeds, or None when the pool drops it:
      reported leaves not recently spent come first, with the reported data and any reservation
      kept; otherwise a leaf survives when it is reserved or was added after the refresh began. */
  function ExpectedRow(t: Tables, op: Op, k: Key): Option<LeafRow>
    requires op.SetLeaves?
  {
    var spentIds := RecentlySpent(t, op.user, op.start);
    var reservation := if k in t.leaves then t.leaves[k].reservation else None;
    if k.user == op.user && k.id in Ids(op.missingNodes) && k.id !in spentIds then
      Some(RowOf(LastOf(op.missingNodes, k.id), true, reservation, op.atMissing(k.id)))
    else if k.user == op.user && k.id in Ids(op.nodes) && k.id !in spentIds then
      Some(RowOf(LastOf(op.nodes, k.id), false, reservation, op.at(k.id)))
    else if k in t.leaves && Survives(t, op.user, op.start, k) then
      Some(t.leaves[k])
    else None
  }

  /** A refresh that proceeds gives exactly the expected rows and touches no reservation. */
  lemma RefreshExactly(t: Tables, op: Op, k: Key)
    requires op.SetLeaves?
    ensures var t' := Refreshed(t, op.user, op.nodes, op.missingNodes, op.start, op.at, op.atMissing);
      && t'.reservations == t.reservations && t'.swaps == t.swaps
      && RowAt(t', k) == ExpectedRow(t, op, k)
  {
    var u, reported := op.user, Ids(op.nodes) + Ids(op.missingNodes);
    var t1 := DropOldMarkers(t, u, op.start - SPENT_MARKER_CLEANUP_THRESHOLD);
    RecentlySpentUnaffected(t, u, op.start);
    AfterStale(t, t1, u, op.start, reported, k);
    PutReportedExpected(t, WithoutStale(t1, u, op.start, reported), op, k, RecentlySpent(t1, u, op.start));
  }

  lemma PutReportedExpected(t: Tables, t2: Tables, op: Op, k: Key, spentIds: set<Id>)
    requires op.SetLeaves? && spentIds == RecentlySpent(t, op.user, op.start)
    requires k in t2.leaves <==> (k in t.leaves && Survives(t, op.user, op.start, k))
    requires k in t2.leaves ==> t2.leaves[k] == t.leaves[k]
    ensures var t' := PutReported(t2, op.user, Without(op.nodes, spentIds), Without(op.missingNodes, spentIds),
      op.at, op.atMissing);
      && t'.reservations == t2.reservations && t'.swaps == t2.swaps
      && RowAt(t', k) == ExpectedRow(t, op, k)
  {
    WithoutIds(op.nodes, spentIds);
    WithoutIds(op.missingNodes, spentIds);
    if k.id in Ids(op.nodes) && k.id !in spentIds {
      LastOfWithout(op.nodes, spentIds, k.id);
    }
    if k.id in Ids(op.missingNodes) && k.id !in spentIds {
      LastOfWithout(op.missingNodes, spentIds, k.id);
    }
    PutReportedRow(t2, op.user, Without(op.nodes, spentIds), Without(op.missingNodes, spentIds), op.at,
      op.atMissing, k);
  }

  lemma AfterStale(t: Tables, t1: Tables, u: User, start: Time, reported: set<Id>, k: Key)
    requires t1 == DropOldMarkers(t, u, start - SPENT_MARKER_CLEANUP_THRESHOLD)
    ensures var t2 := WithoutStale(t1, u, start, reported);
      && (k in t2.leaves <==> (k in t.leaves && Survives(t, u, start, k)))
      && (k in t2.leaves ==> t2.leaves[k] == t.leaves[k])
      && t2.reservations == t.reservations && t2.swaps == t.swaps
  {}

  lemma PutReportedRow(t: Tables, u: User, nodes: seq<TreeNode>, missingNodes: seq<TreeNode>,
                       at: Id -> Time, atMissing: Id -> Time, k: Key)
    ensures var t' := PutReported(t, u, nodes, missingNodes, at, atMissing);
      && t'.reservations == t.reservations && t'.swaps == t.swaps
      && RowAt(t', k) == RowAfterPut(t, u, nodes, missingNodes, at, atMissing, k)
  {}

  // ----- swaps hold refreshes back -----------------------------------------------------------------

  /** A swap reservation that has not timed out. */
  predicate HasYoungSwap(t: Tables, u: User, now: Time)
  {
    exists k :: k in t.reservations && k.user == u && t.reservations[k].purpose == Swap
      && !TimedOut(t.reservations[k], now)
  }

  /** A refresh that does not fail is skipped exactly when a swap reservation young enough to
      survive the cleanup exists, or a swap completed at or after the refresh began. */
  lemma RefreshSkippedIff(fk: bool, t: Tables, op: Op)
    requires op.SetLeaves? && OutcomeOfRefresh(fk, t, op) != Failed
    ensures OutcomeOfRefresh(fk, t, op) == Skipped <==>
      HasYoungSwap(t, op.user, op.dropAt) || SwapCompletedSince(t, op.user, op.start)
  {
    var c := CleanedUp(t, op.user, op.releaseAt, op.dropAt);
    if HasYoungSwap(t, op.user, op.dropAt) {
      var k :| k in t.reservations && k.user == op.user && t.reservations[k].purpose == Swap
        && !TimedOut(t.reservations[k], op.dropAt);
      assert k in c.reservations;
    }
  }

  ghost predicate SwapDoneBy(t: Tables, u: User, c: Time) { u in t.swaps && t.swaps[u] >= c }

  /** The recorded completion time of a tenant's swaps never goes back. */
  lemma StepKeepsSwapDone(fk: bool, t: Tables, op: Op, from: Time, until: Time, u: User, c: Time)
    requires SwapDoneBy(t, u, c) && c <= from && TimesIn(op, from, until)
    ensures SwapDoneBy(Apply(fk, t, op), u, c)
  {
    if op.StoreAncestors? {
      var live := Storable(t, op.user, op.pedigrees);
      InsertChainsOnlyAdds(DeleteChains(t, op.user, LeafIds(live)), op.user, ChainRows(live));
    }
  }

  lemma {:induction false} RunKeepsSwapDone(fk: bool, t: Tables, clock: Time, es: seq<Event>, u: User, c: Time)
    requires SwapDoneBy(t, u, c) && c <= clock && ValidRun(fk, t, clock, es)
    ensures SwapDoneBy(Run(fk, t, es), u, c)
    decreases es
  {
    if es != [] {
      StepKeepsSwapDone(fk, t, es[0].op, es[0].from, es[0].until, u, c);
      RunKeepsSwapDone(fk, Apply(fk, t, es[0].op), es[0].until, es[1..], u, c);
    }
  }

  /** Once a swap is finalized with new leaves, every later refresh that began at or before its
      completion, after any further run, changes nothing but releasing timed-out reservations. */
  lemma SwapOutlastsOlderRefreshes(fk: bool, t: Tables, swap: Op, clock: Time, es: seq<Event>, refresh: Op)
    requires swap.Finalize? && IsSwap(t, swap.user, swap.rid) && swap.newLeaves.Some? && swap.swapAt <= clock
    requires ValidRun(fk, Apply(fk, t, swap), clock, es)
    requires refresh.SetLeaves? && refresh.user == swap.user && refresh.start <= swap.swapAt
    ensures var t' := Run(fk, Apply(fk, t, swap), es);
      Apply(fk, t', refresh) == t'
      || Apply(fk, t', refresh) == CleanedUp(t', refresh.user, refresh.releaseAt, refresh.dropAt)
    ensures var t' := Run(fk, Apply(fk, t, swap), es); OutcomeOfRefresh(fk, t', refresh) != Proceeded
  {
    RunKeepsSwapDone(fk, Apply(fk, t, swap), clock, es, swap.user, swap.swapAt);
  }

  // ----- a spent leaf stays out --------------------------------------------------------------------

  /** The operation puts the leaf into the pool by name. */
  predicate Readds(op: Op, l: Id)
  {
    match op
    case AddLeaves(_, nodes, _) => l in Ids(nodes)
    case Cancel(_, _, keep, _) => l in Ids(keep)
    case Finalize(_, _, newLeaves, _, _, _) => newLeaves.Some? && l in Ids(newLeaves.value)
    case Update(_, _, reserved, change, _, _, _) => l in Ids(reserved) + Ids(change)
    case _ => false
  }

  /** The refresh began no later than the spend, or soon after it without listing the leaf. */
  predicate RefreshRespects(op: Op, l: Id, spentAt: Time)
    requires op.SetLeaves?
  {
    op.start <= spentAt
    || (op.start <= spentAt + SPENT_MARKER_CLEANUP_THRESHOLD && l !in Ids(op.nodes) + Ids(op.missingNodes))
  }

  predicate LeavesOut(op: Op, u: User, l: Id, spentAt: Time)
  {
    op.user == u ==> !Readds(op, l) && (op.SetLeaves? ==> RefreshRespects(op, l, spentAt))
  }

  ghost predicate SpentAndOut(t: Tables, u: User, l: Id, s: Time)
  {
    Key(u, l) !in t.leaves && Key(u, l) in t.spent && t.spent[Key(u, l)] == s
  }

  lemma RefreshKeepsSpentOut(fk: bool, t: Tables, op: Op, u: User, l: Id, s: Time)
    requires op.SetLeaves? && SpentAndOut(t, u, l, s) && LeavesOut(op, u, l, s)
    ensures SpentAndOut(Refresh(fk, t, op), u, l, s)
  {
    match OutcomeOfRefresh(fk, t, op) {
      case Failed =>
      case Skipped =>
      case Proceeded =>
        RefreshExactly(CleanedUp(t, op.user, op.releaseAt, op.dropAt), op, Key(u, l));
    }
  }

  lemma UpsertKeepsSpentOut(t: Tables, v: User, nodes: seq<TreeNode>, missing: bool, at: Id -> Time, u: User, l: Id,
                            s: Time)
    requires SpentAndOut(t, u, l, s) && (v == u ==> l !in Ids(nodes))
    ensures SpentAndOut(UpsertLeaves(t, v, nodes, missing, at), u, l, s)
  {}

  lemma SpendKeepsSpentOut(t: Tables, v: User, rid: ReservationId, held: set<Id>, at: Time, u: User, l: Id, s: Time)
    requires SpentAndOut(t, u, l, s)
    ensures SpentAndOut(Spend(t, v, rid, held, at), u, l, s)
  {}

  lemma SettledKeepsSpentOut(t: Tables, v: User, rid: ReservationId, at: Time, u: User, l: Id, s: Time)
    requires SpentAndOut(t, u, l, s)
    ensures SpentAndOut(Settled(t, v, rid, at), u, l, s)
  {
    SpendKeepsSpentOut(t, v, rid, if IsLive(t, v, rid) then HeldBy(t, v, rid) else {}, at, u, l, s);
  }

  lemma FinalizeKeepsSpentOut(t: Tables, op: Op, u: User, l: Id, s: Time)
    requires op.Finalize? && SpentAndOut(t, u, l, s) && LeavesOut(op, u, l, s)
    ensures SpentAndOut(Finalized(t, op), u, l, s)
  {
    var t1 := Settled(t, op.user, op.rid, op.spentAt);
    SettledKeepsSpentOut(t, op.user, op.rid, op.spentAt, u, l, s);
    if op.newLeaves.Some? {
      UpsertKeepsSpentOut(t1, op.user, op.newLeaves.value, false, op.at, u, l, s);
    }
  }

  lemma UpdateKeepsSpentOut(t: Tables, op: Op, u: User, l: Id, s: Time)
    requires op.Update? && SpentAndOut(t, u, l, s) && LeavesOut(op, u, l, s)
    ensures SpentAndOut(Updated(t, op), u, l, s)
  {
    if IsLive(t, op.user, op.rid) {
      var t1 := Spend(t, op.user, op.rid, HeldBy(t, op.user, op.rid), op.spentAt);
      SpendKeepsSpentOut(t, op.user, op.rid, HeldBy(t, op.user, op.rid), op.spentAt, u, l, s);
      UpsertKeepsSpentOut(t1, op.user, op.change, false, op.atChange, u, l, s);
      UpsertKeepsSpentOut(UpsertLeaves(t1, op.user, op.change, false, op.atChange), op.user, op.reserved, false,
        op.atReserved, u, l, s);
    }
  }

  lemma CancelKeepsSpentOut(t: Tables, op: Op, u: User, l: Id, s: Time)
    requires op.Cancel? && SpentAndOut(t, u, l, s) && LeavesOut(op, u, l, s)
    ensures SpentAndOut(Cancelled(t, op), u, l, s)
  {}

  lemma OthersKeepSpentOut(fk: bool, t: Tables, op: Op, u: User, l: Id, s: Time)
    requires op.AddLeaves? || op.TryReserve? || op.ReserveByIds?
    requires SpentAndOut(t, u, l, s) && LeavesOut(op, u, l, s)
    ensures SpentAndOut(Apply(fk, t, op), u, l, s)
  {}

  lemma StepKeepsSpentOut(fk: bool, t: Tables, op: Op, u: User, l: Id, s: Time)
    requires SpentAndOut(t, u, l, s) && LeavesOut(op, u, l, s)
    ensures SpentAndOut(Apply(fk, t, op), u, l, s)
  {
    match op {
      case SetLeaves(_, _, _, _, _, _, _, _) => RefreshKeepsSpentOut(fk, t, op, u, l, s);
      case StoreAncestors(v, ps) =>
        var live := Storable(t, v, ps);
        InsertChainsOnlyAdds(DeleteChains(t, v, LeafIds(live)), v, ChainRows(live));
      case Finalize(_, _, _, _, _, _) => FinalizeKeepsSpentOut(t, op, u, l, s);
      case Update(_, _, _, _, _, _, _) => UpdateKeepsSpentOut(t, op, u, l, s);
      case Cancel(_, _, _, _) => CancelKeepsSpentOut(t, op, u, l, s);
      case AddLeaves(_, _, _) => OthersKeepSpentOut(fk, t, op, u, l, s);
      case TryReserve(_, _, _, _, _, _, _) => OthersKeepSpentOut(fk, t, op, u, l, s);
      case ReserveByIds(_, _, _, _, _) => OthersKeepSpentOut(fk, t, op, u, l, s);
    }
  }

  lemma {:induction false} RunKeepsSpentOut(fk: bool, t: Tables, es: seq<Event>, u: User, l: Id, s: Time)
    requires SpentAndOut(t, u, l, s) && forall e :: e in es ==> LeavesOut(e.op, u, l, s)
    ensures SpentAndOut(Run(fk, t, es), u, l, s)
    decreases es
  {
    if es != [] {
      StepKeepsSpentOut(fk, t, es[0].op, u, l, s);
      RunKeepsSpentOut(fk, Apply(fk, t, es[0].op), es[1..], u, l, s);
    }
  }

  /** A reserved leaf spent by a finalize or an update, with no earlier marker, stays out of the
      pool in every continuation that does not put it back by name and whose refreshes began at
      or before the spend, or within five minutes after it without listing the leaf. */
  lemma SpentStaysOut(fk: bool, t: Tables, spend: Op, l: Id, es: seq<Event>)
    requires spend.Finalize? || spend.Update?
    requires IsLive(t, spend.user, spend.rid) && l in HeldBy(t, spend.user, spend.rid)
    requires Key(spend.user, l) !in t.spent && !Readds(spend, l)
    requires forall e :: e in es ==> LeavesOut(e.op, spend.user, l, spend.spentAt)
    ensures Key(spend.user, l) !in Run(fk, Apply(fk, t, spend), es).leaves
  {
    assert SpentAndOut(Apply(fk, t, spend), spend.user, l, spend.spentAt);
    RunKeepsSpentOut(fk, Apply(fk, t, spend), es, spend.user, l, spend.spentAt);
  }

  /** For a single refresh the condition is exact: a spent leaf comes back when and only when a
      refresh that began after the spend proceeds and lists it. */
  lemma SpentComesBackIff(fk: bool, t: Tables, op: Op, l: Id, s: Time)
    requires op.SetLeaves? && SpentAndOut(t, op.user, l, s)
    ensures Key(op.user, l) in Refresh(fk, t, op).leaves <==>
      OutcomeOfRefresh(fk, t, op) == Proceeded && l in Ids(op.nodes) + Ids(op.missingNodes) && op.start > s
  {
    var c := CleanedUp(t, op.user, op.releaseAt, op.dropAt);
    match OutcomeOfRefresh(fk, t, op) {
      case Failed =>
      case Skipped =>
      case Proceeded =>
        RefreshExactly(c, op, Key(op.user, l));
        assert l in RecentlySpent(c, op.user, op.start) <==> s >= op.start;
    }
  }
}

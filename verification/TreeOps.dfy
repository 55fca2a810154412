/** The leaf store's operations as steps on the tables. An operation carries the clock readings
    its statements took, so that a run is a sequence of operations. A failing operation rolls
    back: it leaves the tables as they were. */
module TreeOps {
  import opened Base
  import opened TreeTables
  import opened LeafSelection

  datatype Op =
    | AddLeaves(user: User, nodes: seq<TreeNode>, at: Id -> Time)
    | StoreAncestors(user: User, pedigrees: seq<Pedigree>)
    | SetLeaves(user: User, nodes: seq<TreeNode>, missingNodes: seq<TreeNode>, start: Time,
                releaseAt: Time, dropAt: Time, at: Id -> Time, atMissing: Id -> Time)
    | Cancel(user: User, rid: ReservationId, keep: seq<TreeNode>, at: Id -> Time)
    | Finalize(user: User, rid: ReservationId, newLeaves: Option<seq<TreeNode>>, spentAt: Time,
               at: Id -> Time, swapAt: Time)
    | TryReserve(user: User, rid: ReservationId, target: Option<TargetAmounts>, exactOnly: bool,
                 purpose: Purpose, rows: seq<SlimLeaf>, now: Time)
    | ReserveByIds(user: User, rid: ReservationId, ids: seq<Id>, purpose: Purpose, now: Time)
    | Update(user: User, rid: ReservationId, reserved: seq<TreeNode>, change: seq<TreeNode>,
             spentAt: Time, atChange: Id -> Time, atReserved: Id -> Time)

  // ----- store_ancestors -----------------------------------------------------------------------

  datatype ChainRow = ChainRow(leaf: Id, node: TreeNode)

  /** The pedigrees whose leaf the pool still holds and whose chain is known. */
  function Storable(t: Tables, u: User, ps: seq<Pedigree>): seq<Pedigree>
  {
    if ps == [] then []
    else (if Key(u, ps[0].leaf.id) in t.leaves && ps[0].ancestors != [] then [ps[0]] else [])
         + Storable(t, u, ps[1..])
  }

  function RowsOf(leaf: Id, ancestors: seq<TreeNode>): seq<ChainRow>
  {
    seq(|ancestors|, i requires 0 <= i < |ancestors| => ChainRow(leaf, ancestors[i]))
  }

  function ChainRows(ps: seq<Pedigree>): seq<ChainRow>
  {
    if ps == [] then [] else RowsOf(ps[0].leaf.id, ps[0].ancestors) + ChainRows(ps[1..])
  }

  /** The primary key (user, leaf, node) admits the rows. */
  predicate DistinctRows(rows: seq<ChainRow>)
  {
    forall i, j :: 0 <= i < j < |rows| ==> rows[i].leaf != rows[j].leaf || rows[i].node.id != rows[j].node.id
  }

  function LeafIds(ps: seq<Pedigree>): set<Id> { set p | p in ps :: p.leaf.id }

  function ChainKeyOf(u: User, row: ChainRow): ChainKey { ChainKey(u, row.leaf, row.node.id) }

  function InsertChains(t: Tables, u: User, rows: seq<ChainRow>): Tables
    decreases rows
  {
    if rows == [] then t
    else InsertChains(t.(chains := t.chains[ChainKeyOf(u, rows[0]) := rows[0].node]), u, rows[1..])
  }

  function StoreChains(t: Tables, u: User, ps: seq<Pedigree>): Tables
  {
    var live := Storable(t, u, ps);
    var rows := ChainRows(live);
    if DistinctRows(rows) then InsertChains(DeleteChains(t, u, LeafIds(live)), u, rows) else t
  }

  // ----- set_leaves ----------------------------------------------------------------------------

  function CleanedUp(t: Tables, u: User, releaseAt: Time, dropAt: Time): Tables
  {
    DropStale(ReleaseStale(t, u, releaseAt), u, dropAt)
  }

  predicate HasActiveSwap(t: Tables, u: User)
  {
    exists k :: k in t.reservations && k.user == u && t.reservations[k].purpose == Swap
  }

  predicate SwapCompletedSince(t: Tables, u: User, start: Time)
  {
    u in t.swaps && t.swaps[u] >= start
  }

  predicate Blocked(t: Tables, u: User, start: Time)
  {
    HasActiveSwap(t, u) || SwapCompletedSince(t, u, start)
  }

  /** Drops the stale leaves, and the chains of those the refresh does not report. */
  function WithoutStale(t: Tables, u: User, start: Time, reported: set<Id>): Tables
  {
    var stale := StaleLeaves(t, u, start);
    DeleteChains(DeleteLeaves(t, Keys(u, stale)), u, stale - reported)
  }

  /** Upserts the reported leaves, then the ones some operators miss. */
  function PutReported(t: Tables, u: User, nodes: seq<TreeNode>, missingNodes: seq<TreeNode>,
                       at: Id -> Time, atMissing: Id -> Time): Tables
  {
    UpsertLeaves(UpsertLeaves(t, u, nodes, false, at), u, missingNodes, true, atMissing)
  }

  /** A refresh past its swap checks. */
  function Refreshed(t: Tables, u: User, nodes: seq<TreeNode>, missingNodes: seq<TreeNode>, start: Time,
                     at: Id -> Time, atMissing: Id -> Time): Tables
  {
    var t1 := DropOldMarkers(t, u, start - SPENT_MARKER_CLEANUP_THRESHOLD);
    var spentIds := RecentlySpent(t1, u, start);
    PutReported(WithoutStale(t1, u, start, Ids(nodes) + Ids(missingNodes)), u,
                Without(nodes, spentIds), Without(missingNodes, spentIds), at, atMissing)
  }

  datatype RefreshOutcome = Failed | Skipped | Proceeded

  /** With foreign keys, a reservation deleted under a leaf that still names it fails the refresh. */
  ghost function OutcomeOfRefresh(fk: bool, t: Tables, op: Op): RefreshOutcome
    requires op.SetLeaves?
  {
    var c := CleanedUp(t, op.user, op.releaseAt, op.dropAt);
    if fk && !NoDangling(c, op.user) then Failed
    else if Blocked(c, op.user, op.start) then Skipped
    else Proceeded
  }

  // ----- reservations --------------------------------------------------------------------------

  function CreateReservation(t: Tables, u: User, rid: ReservationId, ids: set<Id>, purpose: Purpose,
                             pending: U64, now: Time): Tables
  {
    SetReservation(t.(reservations := t.reservations[Key(u, rid) := Reservation(purpose, AsI64(pending), now)]),
                   u, ids, rid)
  }

  predicate Distinct(ids: seq<Id>)
  {
    forall i, j :: 0 <= i < j < |ids| ==> ids[i] != ids[j]
  }

  /** `resolve_full_leaves`: the stored nodes in the order asked for, or an error. */
  function ResolveFull(t: Tables, u: User, ids: seq<Id>): Option<seq<TreeNode>>
  {
    if Distinct(ids) && forall id :: id in ids ==> Key(u, id) in t.leaves
    then Some(seq(|ids|, i requires 0 <= i < |ids| => t.leaves[Key(u, ids[i])].data))
    else None
  }

  function NodeTotal(nodes: seq<TreeNode>): nat
  {
    if nodes == [] then 0 else nodes[0].value + NodeTotal(nodes[1..])
  }

  function EligibleKeys(t: Tables, u: User): set<Key>
  {
    set k | k in t.leaves && k.user == u && Eligible(t.leaves[k])
  }

  function ValueColumn(leaves: map<Key, LeafRow>): Key -> int
  {
    (k: Key) => if k in leaves then leaves[k].value else 0
  }

  function PendingColumn(reservations: map<Key, Reservation>): Key -> int
  {
    (k: Key) => if k in reservations then reservations[k].pending else 0
  }

  ghost function EligibleTotal(t: Tables, u: User): int
  {
    Sum(EligibleKeys(t, u), ValueColumn(t.leaves))
  }

  function UserReservations(t: Tables, u: User): set<Key>
  {
    set k | k in t.reservations && k.user == u
  }

  ghost function PendingTotal(t: Tables, u: User): int
  {
    Sum(UserReservations(t, u), PendingColumn(t.reservations))
  }

  predicate FitsI64(v: int) { -0x8000_0000_0000_0000 <= v <= I64_MAX }

  /** `u64::try_from(v).unwrap_or(0)` on a sum read back as a signed column. */
  function AsU64OrZero(v: int): nat { if v < 0 then 0 else v }

  datatype Decision =
    | Reserve(ids: seq<Id>, minimum: bool)
    | WaitForPending(needed: U64, available: nat, pending: nat)
    | NotEnough
    | NonReservable
    | SumOutOfRange

  function IdsOf(s: seq<SlimLeaf>): seq<Id>
  {
    seq(|s|, i requires 0 <= i < |s| => s[i].id)
  }

  /** What `try_reserve_leaves` does with the two sums and the slim rows it read. */
  function Decide(available: int, pending: int, rows: seq<SlimLeaf>, target: Option<TargetAmounts>,
                  exactOnly: bool): Decision
  {
    if !FitsI64(available) || !FitsI64(pending) then SumOutOfRange
    else
      var needed := TotalSats(target);
      var exact := SelectByTargets(rows, target);
      if exact.Ok? then
        if exact.value.All() == [] then NonReservable else Reserve(IdsOf(exact.value.All()), false)
      else if !exactOnly && ByMinimum(rows, needed).Some? then
        Reserve(IdsOf(ByMinimum(rows, needed).value), true)
      else if AsU64OrZero(available) + AsU64OrZero(pending) >= needed then
        WaitForPending(needed, AsU64OrZero(available), AsU64OrZero(pending))
      else NotEnough
  }

  /** The change an over-reservation leaves pending. */
  function PendingChange(nodes: seq<TreeNode>, needed: U64, minimum: bool): U64
  {
    var amount := NodeTotal(nodes) % TWO64;
    if minimum && amount > needed && needed > 0 then amount - needed else 0
  }

  /** Smallest eligible leaf above the bound. */
  ghost predicate SmallestOver(t: Tables, u: User, bound: nat, over: Option<Id>)
  {
    match over
    case None => forall k :: k in EligibleKeys(t, u) ==> t.leaves[k].value <= bound
    case Some(id) =>
      && Key(u, id) in EligibleKeys(t, u)
      && t.leaves[Key(u, id)].value > bound
      && forall k :: k in EligibleKeys(t, u) && t.leaves[k].value > bound ==>
           t.leaves[Key(u, id)].value <= t.leaves[k].value
  }

  ghost predicate IsSlim(t: Tables, u: User, bound: nat, over: Option<Id>, k: Key)
  {
    k in EligibleKeys(t, u) && (t.leaves[k].value <= bound || over == Some(k.id))
  }

  /** `rows` lists each leaf of `keys` once, as an (id, value) pair. */
  ghost predicate Lists(t: Tables, u: User, keys: set<Key>, rows: seq<SlimLeaf>)
  {
    && Distinct(IdsOf(rows))
    && (forall l :: l in rows ==>
         (Key(u, l.id) in keys && Key(u, l.id) in t.leaves && l.value == AsU64OrZero(t.leaves[Key(u, l.id)].value)))
    && (forall k :: k in keys ==> k.id in SlimIds(rows))
  }

  ghost predicate AnswersSlim(t: Tables, u: User, bound: nat, rows: seq<SlimLeaf>)
  {
    exists over: Option<Id> :: SmallestOver(t, u, bound, over)
      && Lists(t, u, (set k | k in t.leaves && IsSlim(t, u, bound, over, k)), rows)
  }

  ghost function DecisionOf(t: Tables, op: Op): Decision
    requires op.TryReserve?
  {
    Decide(EligibleTotal(t, op.user), PendingTotal(t, op.user), op.rows, op.target, op.exactOnly)
  }

  predicate ReservableIds(t: Tables, u: User, ids: seq<Id>)
  {
    ids != [] && Distinct(ids) && forall id :: id in ids ==> Key(u, id) in t.leaves && Eligible(t.leaves[Key(u, id)])
  }

  // ----- the step ------------------------------------------------------------------------------

  /** Leaves held by the reservation, spent for good: marked, removed with their chains. */
  function Spend(t: Tables, u: User, rid: ReservationId, held: set<Id>, at: Time): Tables
  {
    DeleteLeaves(DeleteChains(MarkSpent(t, u, held, at), u, held), Keys(u, HeldBy(t, u, rid)))
  }

  /** The reserved leaves leave the pool. A reservation that is gone spends nothing. */
  function Settled(t: Tables, u: User, rid: ReservationId, spentAt: Time): Tables
  {
    DeleteReservation(Spend(t, u, rid, if IsLive(t, u, rid) then HeldBy(t, u, rid) else {}, spentAt), u, rid)
  }

  predicate IsSwap(t: Tables, u: User, rid: ReservationId)
  {
    IsLive(t, u, rid) && t.reservations[Key(u, rid)].purpose == Swap
  }

  function Finalized(t: Tables, op: Op): Tables
    requires op.Finalize?
  {
    var t1 := Settled(t, op.user, op.rid, op.spentAt);
    if op.newLeaves.None? then t1
    else
      var t2 := UpsertLeaves(t1, op.user, op.newLeaves.value, false, op.at);
      t2.(swaps := if IsSwap(t, op.user, op.rid) then t2.swaps[op.user := op.swapAt] else t2.swaps)
  }

  function Cancelled(t: Tables, op: Op): Tables
    requires op.Cancel?
  {
    var u := op.user;
    var held := HeldBy(t, u, op.rid);
    var t1 := DeleteLeaves(DeleteChains(t, u, held - Ids(op.keep)), Keys(u, held));
    UpsertLeaves(DeleteReservation(t1, u, op.rid), u, op.keep, false, op.at)
  }

  /** The second half of an update: change and reserved leaves in, nothing pending any more. */
  function Replaced(t: Tables, op: Op): Tables
    requires op.Update? && IsLive(t, op.user, op.rid)
  {
    var u := op.user;
    var t1 := UpsertLeaves(t, u, op.change, false, op.atChange);
    var t2 := UpsertLeaves(t1, u, op.reserved, false, op.atReserved);
    var t3 := SetReservation(t2, u, Ids(op.reserved), op.rid);
    t3.(reservations := t3.reservations[Key(u, op.rid) := t3.reservations[Key(u, op.rid)].(pending := 0)])
  }

  function Updated(t: Tables, op: Op): Tables
    requires op.Update?
  {
    var u := op.user;
    if !IsLive(t, u, op.rid) then t
    else Replaced(Spend(t, u, op.rid, HeldBy(t, u, op.rid), op.spentAt), op)
  }

  ghost function TryReserved(t: Tables, op: Op): Tables
    requires op.TryReserve?
  {
    var u, d := op.user, DecisionOf(t, op);
    if !d.Reserve? || ResolveFull(t, u, d.ids).None? || IsLive(t, u, op.rid) then t
    else
      var nodes := ResolveFull(t, u, d.ids).value;
      CreateReservation(t, u, op.rid, Ids(nodes), op.purpose,
        PendingChange(nodes, TotalSats(op.target), d.minimum), op.now)
  }

  function ReservedByIds(t: Tables, op: Op): Tables
    requires op.ReserveByIds?
  {
    var u := op.user;
    if !ReservableIds(t, u, op.ids) || IsLive(t, u, op.rid) then t
    else CreateReservation(t, u, op.rid, Ids(ResolveFull(t, u, op.ids).value), op.purpose, 0, op.now)
  }

  ghost function Refresh(fk: bool, t: Tables, op: Op): Tables
    requires op.SetLeaves?
  {
    var c := CleanedUp(t, op.user, op.releaseAt, op.dropAt);
    match OutcomeOfRefresh(fk, t, op)
    case Failed => t
    case Skipped => c
    case Proceeded => Refreshed(c, op.user, op.nodes, op.missingNodes, op.start, op.at, op.atMissing)
  }

  ghost function Apply(fk: bool, t: Tables, op: Op): Tables
  {
    match op
    case AddLeaves(u, nodes, at) => UpsertLeaves(UnmarkSpent(t, u, Ids(nodes)), u, nodes, false, at)
    case StoreAncestors(u, ps) => StoreChains(t, u, ps)
    case SetLeaves(_, _, _, _, _, _, _, _) => Refresh(fk, t, op)
    case Cancel(_, _, _, _) => Cancelled(t, op)
    case Finalize(_, _, _, _, _, _) => Finalized(t, op)
    case TryReserve(_, _, _, _, _, _, _) => TryReserved(t, op)
    case ReserveByIds(_, _, _, _, _) => ReservedByIds(t, op)
    case Update(_, _, _, _, _, _, _) => Updated(t, op)
  }

  // ----- runs ----------------------------------------------------------------------------------

  ghost predicate TimesIn(op: Op, from: Time, until: Time)
  {
    match op
    case AddLeaves(_, _, at) => forall id :: from <= at(id) <= until
    case StoreAncestors(_, _) => true
    case SetLeaves(_, _, _, _, releaseAt, dropAt, at, atMissing) =>
      && from <= releaseAt <= dropAt <= until
      && (forall id :: dropAt <= at(id) <= until)
      && (forall id :: dropAt <= atMissing(id) <= until)
    case Cancel(_, _, _, at) => forall id :: from <= at(id) <= until
    case Finalize(_, _, _, spentAt, at, swapAt) =>
      && from <= spentAt <= swapAt <= until
      && (forall id :: spentAt <= at(id) <= swapAt)
    case TryReserve(_, _, _, _, _, _, now) => from <= now <= until
    case ReserveByIds(_, _, _, _, now) => from <= now <= until
    case Update(_, _, _, _, spentAt, atChange, atReserved) =>
      && from <= spentAt <= until
      && (forall id :: spentAt <= atChange(id) <= until)
      && (forall id :: spentAt <= atReserved(id) <= until)
  }

  /** A new reservation id (a time-ordered UUID) occurs nowhere yet; the slim rows answer the query. */
  ghost predicate Enabled(t: Tables, op: Op)
  {
    && (op.TryReserve? || op.ReserveByIds? ==> !IsLive(t, op.user, op.rid) && HeldBy(t, op.user, op.rid) == {})
    && (op.TryReserve? ==> AnswersSlim(t, op.user, SlimBound(op.target), op.rows))
  }

  /** One operation, between two readings of a clock that never goes back. */
  datatype Event = Event(op: Op, from: Time, until: Time)

  ghost function Run(fk: bool, t: Tables, es: seq<Event>): Tables
    decreases es
  {
    if es == [] then t else Run(fk, Apply(fk, t, es[0].op), es[1..])
  }

  ghost predicate ValidRun(fk: bool, t: Tables, clock: Time, es: seq<Event>)
    decreases es
  {
    es == [] ||
    (var e := es[0];
     && clock <= e.from <= e.until
     && TimesIn(e.op, e.from, e.until)
     && Enabled(t, e.op)
     && ValidRun(fk, Apply(fk, t, e.op), e.until, es[1..]))
  }

  function EndOf(clock: Time, es: seq<Event>): Time
    decreases es
  {
    if es == [] then clock else EndOf(es[0].until, es[1..])
  }

  const EMPTY: Tables := Tables(map[], map[], map[], map[], map[])
}

/** The locked operations statement by statement: what each transaction executes, one SQL
    statement at a time, with the answers its reads embed into what follows. */
module TreeProgram {
  import opened Base
  import opened TreeTables
  import opened LeafSelection
  import opened TreeOps
  import opened TreeInvariants

  /** What a caller asks for. */
  datatype Call =
    | CallStoreAncestors(pedigrees: seq<Pedigree>)
    | CallSetLeaves(nodes: seq<TreeNode>, missingNodes: seq<TreeNode>, start: Time)
    | CallCancel(rid: ReservationId, keep: seq<TreeNode>)
    | CallFinalize(rid: ReservationId, newLeaves: Option<seq<TreeNode>>)
    | CallTryReserve(rid: ReservationId, target: Option<TargetAmounts>, exactOnly: bool, purpose: Purpose)
    | CallReserveByIds(rid: ReservationId, ids: seq<Id>, purpose: Purpose)
    | CallUpdate(rid: ReservationId, reserved: seq<TreeNode>, change: seq<TreeNode>)

  predicate Asks(op: Op, u: User, call: Call)
  {
    && op.user == u
    && match op {
         case AddLeaves(_, _, _) => false
         case StoreAncestors(_, ps) => call == CallStoreAncestors(ps)
         case SetLeaves(_, nodes, missingNodes, start, _, _, _, _) => call == CallSetLeaves(nodes, missingNodes, start)
         case Cancel(_, rid, keep, _) => call == CallCancel(rid, keep)
         case Finalize(_, rid, newLeaves, _, _, _) => call == CallFinalize(rid, newLeaves)
         case TryReserve(_, rid, target, exactOnly, purpose, _, _) => call ==
           CallTryReserve(rid, target, exactOnly, purpose)
         case ReserveByIds(_, rid, ids, purpose, _) => call == CallReserveByIds(rid, ids, purpose)
         case Update(_, rid, reserved, change, _, _, _) => call == CallUpdate(rid, reserved, change)
       }
  }

  /** A statement that changes rows. */
  datatype Write =
    | Release
    | DropReservations
    | DropMarkers(cutoff: Time)
    | DeleteStale(start: Time)
    | DropChains(ids: set<Id>)
    | Put(nodes: seq<TreeNode>, missing: bool)
    | Mark(ids: set<Id>)
    | Unmark(ids: set<Id>)
    | DeleteHeld(rid: ReservationId)
    | DeleteRid(rid: ReservationId)
    | Assign(ids: set<Id>, rid: ReservationId)
    | ClearPending(rid: ReservationId)
    | NoteSwap
    | Open(rid: ReservationId, purpose: Purpose, pending: U64)
    | InsertRows(rows: seq<ChainRow>)

  /** What a transaction does after its pending writes: commit, or read and decide. */
  datatype Upcoming =
    | Commit
    | ReadExisting(rest: seq<Pedigree>, live: seq<Pedigree>)
    | CheckSwap(nodes: seq<TreeNode>, missingNodes: seq<TreeNode>, start: Time)
    | ReadSpent(nodes: seq<TreeNode>, missingNodes: seq<TreeNode>, start: Time)
    | ReadStale(nodes: seq<TreeNode>, missingNodes: seq<TreeNode>, start: Time, spentIds: set<Id>)
    | ReadPrior(rid: ReservationId, keep: seq<TreeNode>)
    | ReadPurpose(rid: ReservationId, newLeaves: Option<seq<TreeNode>>)
    | ReadReserved(rid: ReservationId, newLeaves: Option<seq<TreeNode>>, isSwap: bool)
    | CheckExists(rid: ReservationId, reserved: seq<TreeNode>, change: seq<TreeNode>)
    | ReadOld(rid: ReservationId, reserved: seq<TreeNode>, change: seq<TreeNode>)
    | ReadTotal(call: Call)
    | ReadSlim(call: Call, available: int)
    | ReadPending(call: Call, available: int, rows: seq<SlimLeaf>)
    | ReadFull(rid: ReservationId, purpose: Purpose, target: Option<TargetAmounts>, minimum: bool, ids: seq<Id>)
    | CheckIds(rid: ReservationId, purpose: Purpose, ids: seq<Id>)

  /** A place in a transaction. */
  datatype Point = Point(writes: seq<Write>, upcoming: Upcoming)

  /** What the server brings to a statement: the clock, and the order it returns rows in. */
  datatype Input = Input(now: Time, rows: seq<SlimLeaf>, ids: seq<Id>)

  /** Rows per statement. */
  datatype RawSizes = Sizes(leaves: nat, ids: nat, rows: nat)
  type Sizes = z: RawSizes | z.leaves > 0 && z.ids > 0 && z.rows > 0 witness Sizes(1, 1, 1)

  /** A step of a transaction. Stuck: no server answers so. */
  datatype Outcome = Went(t: Tables, at: Point) | Aborted | Stuck

  // ----- chunked statements --------------------------------------------------------------------

  function IdSet(ids: seq<Id>): set<Id> { set id | id in ids }

  function Cut<T>(s: seq<T>, n: nat): nat { if |s| <= n then |s| else n }

  function Puts(nodes: seq<TreeNode>, n: nat, missing: bool): seq<Write>
    requires n > 0
    decreases nodes
  {
    if nodes == [] then []
    else Prepend(Put(nodes[..Cut(nodes, n)], missing), Puts(nodes[Cut(nodes, n)..], n, missing))
  }

  function ChainDrops(ids: seq<Id>, n: nat): seq<Write>
    requires n > 0
    decreases ids
  {
    if ids == [] then []
    else Prepend(DropChains(IdSet(ids[..Cut(ids, n)])), ChainDrops(ids[Cut(ids, n)..], n))
  }

  function RowInserts(rows: seq<ChainRow>, n: nat): seq<Write>
    requires n > 0
    decreases rows
  {
    if rows == [] then [] else Prepend(InsertRows(rows[..Cut(rows, n)]), RowInserts(rows[Cut(rows, n)..], n))
  }

  function Leaving(ids: seq<Id>, reported: set<Id>): seq<Id>
  {
    if ids == [] then []
    else if ids[0] in reported then Leaving(ids[1..], reported)
    else Prepend(ids[0], Leaving(ids[1..], reported))
  }

  // ----- the programs --------------------------------------------------------------------------

  function Start(call: Call): Point
  {
    match call
    case CallStoreAncestors(ps) => Point([], ReadExisting(ps, []))
    case CallSetLeaves(nodes, missingNodes, start) =>
      Point([Release, DropReservations], CheckSwap(nodes, missingNodes, start))
    case CallCancel(rid, keep) => Point([], ReadPrior(rid, keep))
    case CallFinalize(rid, newLeaves) => Point([], ReadPurpose(rid, newLeaves))
    case CallTryReserve(_, _, _, _) => Point([], ReadTotal(call))
    case CallReserveByIds(rid, ids, purpose) => Point([], CheckIds(rid, purpose, ids))
    case CallUpdate(rid, reserved, change) => Point([], CheckExists(rid, reserved, change))
  }

  function ChainWrites(z: Sizes, live: seq<Pedigree>): seq<Write>
  {
    if live == [] then [] else [DropChains(LeafIds(live))] + RowInserts(ChainRows(live), z.rows)
  }

  function SpendWrites(rid: ReservationId, held: set<Id>): seq<Write>
  {
    (if held == {} then [] else [Mark(held), DropChains(held)]) + [DeleteHeld(rid)]
  }

  function FinalizeWrites(z: Sizes, rid: ReservationId, held: set<Id>, isSwap: bool,
                          newLeaves: Option<seq<TreeNode>>): seq<Write>
  {
    SpendWrites(rid, held) + [DeleteRid(rid)]
    + (if newLeaves.None? then []
       else Puts(newLeaves.value, z.leaves, false) + (if isSwap then [NoteSwap] else []))
  }

  function CancelWrites(z: Sizes, rid: ReservationId, held: set<Id>, keep: seq<TreeNode>): seq<Write>
  {
    (if held - Ids(keep) == {} then [] else [DropChains(held - Ids(keep))])
    + [DeleteHeld(rid), DeleteRid(rid)] + Puts(keep, z.leaves, false)
  }

  function UpdateWrites(z: Sizes, rid: ReservationId, held: set<Id>, reserved: seq<TreeNode>,
                        change: seq<TreeNode>): seq<Write>
  {
    SpendWrites(rid, held) + Puts(change, z.leaves, false) + Puts(reserved, z.leaves, false)
    + (if reserved == [] then [] else [Assign(Ids(reserved), rid)]) + [ClearPending(rid)]
  }

  function RefreshWrites(z: Sizes, nodes: seq<TreeNode>, missingNodes: seq<TreeNode>, start: Time, spentIds: set<Id>,
                         stale: seq<Id>): seq<Write>
  {
    [DeleteStale(start)] + ChainDrops(Leaving(stale, Ids(nodes) + Ids(missingNodes)), z.ids)
    + Puts(Without(nodes, spentIds), z.leaves, false) + Puts(Without(missingNodes, spentIds), z.leaves, true)
  }

  function ReserveWrites(rid: ReservationId, purpose: Purpose, pending: U64, nodes: seq<TreeNode>): seq<Write>
  {
    [Open(rid, purpose, pending)] + (if nodes == [] then [] else [Assign(Ids(nodes), rid)])
  }

  // ----- execution -----------------------------------------------------------------------------

  function Do(fk: bool, u: User, t: Tables, w: Write, now: Time): Option<Tables>
  {
    match w
    case Release => Some(ReleaseStale(t, u, now))
    case DropReservations => if fk && !NoDangling(DropStale(t, u, now), u) then None else Some(DropStale(t, u, now))
    case DropMarkers(cutoff) => Some(DropOldMarkers(t, u, cutoff))
    case DeleteStale(start) => Some(DeleteLeaves(t, Keys(u, StaleLeaves(t, u, start))))
    case DropChains(ids) => Some(DeleteChains(t, u, ids))
    case Put(nodes, missing) => Some(UpsertLeaves(t, u, nodes, missing, (id: Id) => now))
    case Mark(ids) => Some(MarkSpent(t, u, ids, now))
    case Unmark(ids) => Some(UnmarkSpent(t, u, ids))
    case DeleteHeld(rid) => Some(DeleteLeaves(t, Keys(u, HeldBy(t, u, rid))))
    case DeleteRid(rid) => Some(DeleteReservation(t, u, rid))
    case Assign(ids, rid) => Some(SetReservation(t, u, ids, rid))
    case ClearPending(rid) =>
      Some(if IsLive(t, u, rid) then t.(reservations :=
        t.reservations[Key(u, rid) := t.reservations[Key(u, rid)].(pending := 0)]) else t)
    case NoteSwap => Some(t.(swaps := t.swaps[u := now]))
    case Open(rid, purpose, pending) =>
      if IsLive(t, u, rid) then None
      else Some(t.(reservations := t.reservations[Key(u, rid) := Reservation(purpose, AsI64(pending), now)]))
    case InsertRows(rows) =>
      if DistinctRows(rows) && (forall r :: r in rows ==>
        ChainKeyOf(u, r) !in t.chains) then Some(InsertChains(t, u, rows)) else None
  }

  /** A read and what it makes of the transaction. Reads change nothing. */
  ghost function Read(u: User, z: Sizes, t: Tables, upcoming: Upcoming, input: Input): Outcome
  {
    match upcoming
    case Commit => Stuck
    case ReadExisting(rest, live) =>
      var n := Cut(rest, z.ids);
      var live' := live + Storable(t, u, rest[..n]);
      if rest[n..] != [] then Went(t, Point([], ReadExisting(rest[n..], live')))
      else Went(t, Point(ChainWrites(z, live'), Commit))
    case CheckSwap(nodes, missingNodes, start) =>
      if Blocked(t, u, start) then Went(t, Point([], Commit))
      else Went(t, Point([DropMarkers(start - SPENT_MARKER_CLEANUP_THRESHOLD)], ReadSpent(nodes, missingNodes, start)))
    case ReadSpent(nodes, missingNodes, start) =>
      Went(t, Point([], ReadStale(nodes, missingNodes, start, RecentlySpent(t, u, start))))
    case ReadStale(nodes, missingNodes, start, spentIds) =>
      if IdSet(input.ids) != StaleLeaves(t, u, start) then Stuck
      else Went(t, Point(RefreshWrites(z, nodes, missingNodes, start, spentIds, input.ids), Commit))
    case ReadPrior(rid, keep) => Went(t, Point(CancelWrites(z, rid, HeldBy(t, u, rid), keep), Commit))
    case ReadPurpose(rid, newLeaves) =>
      if IsLive(t, u, rid) then Went(t, Point([], ReadReserved(rid, newLeaves, IsSwap(t, u, rid))))
      else Went(t, Point(FinalizeWrites(z, rid, {}, false, newLeaves), Commit))
    case ReadReserved(rid, newLeaves, isSwap) =>
      Went(t, Point(FinalizeWrites(z, rid, HeldBy(t, u, rid), isSwap, newLeaves), Commit))
    case CheckExists(rid, reserved, change) =>
      if IsLive(t, u, rid) then Went(t, Point([], ReadOld(rid, reserved, change))) else Aborted
    case ReadOld(rid, reserved, change) => Went(t,
      Point(UpdateWrites(z, rid, HeldBy(t, u, rid), reserved, change), Commit))
    case ReadTotal(call) =>
      if FitsI64(EligibleTotal(t, u)) then Went(t, Point([], ReadSlim(call, EligibleTotal(t, u)))) else Aborted
    case ReadSlim(call, available) =>
      if call.CallTryReserve? && AnswersSlim(t, u, SlimBound(call.target), input.rows)
      then Went(t, Point([], ReadPending(call, available, input.rows))) else Stuck
    case ReadPending(call, available, rows) =>
      if !call.CallTryReserve? then Stuck
      else (match Decide(available, PendingTotal(t, u), rows, call.target, call.exactOnly)
            case Reserve(ids, minimum) => Went(t,
              Point([], ReadFull(call.rid, call.purpose, call.target, minimum, ids)))
            case WaitForPending(_, _, _) => Went(t, Point([], Commit))
            case NotEnough => Went(t, Point([], Commit))
            case NonReservable => Aborted
            case SumOutOfRange => Aborted)
    case ReadFull(rid, purpose, target, minimum, ids) =>
      (match ResolveFull(t, u, ids)
       case None => Aborted
       case Some(nodes) =>
         Went(t, Point(ReserveWrites(rid, purpose, PendingChange(nodes, TotalSats(target), minimum), nodes), Commit)))
    case CheckIds(rid, purpose, ids) =>
      if ReservableIds(t, u, ids) then Went(t, Point([], ReadFull(rid, purpose, None, false, ids))) else Aborted
  }

  ghost function Execute(fk: bool, u: User, z: Sizes, t: Tables, p: Point, input: Input): Outcome
  {
    if p.writes == [] then Read(u, z, t, p.upcoming, input)
    else
      match Do(fk, u, t, p.writes[0], input.now)
      case None => Aborted
      case Some(t') => Went(t', Point(p.writes[1..], p.upcoming))
  }

  /** A transaction run alone over a list of server inputs. */
  ghost function RunAlone(fk: bool, u: User, z: Sizes, t: Tables, p: Point, inputs: seq<Input>): Outcome
    decreases inputs
  {
    if inputs == [] then Went(t, p)
    else
      match Execute(fk, u, z, t, p, inputs[0])
      case Went(t', p') => RunAlone(fk, u, z, t', p', inputs[1..])
      case Aborted => Aborted
      case Stuck => Stuck
  }

  ghost predicate Finishes(fk: bool, u: User, z: Sizes, t: Tables, p: Point, inputs: seq<Input>, t': Tables)
  {
    RunAlone(fk, u, z, t, p, inputs) == Went(t', Point([], Commit))
  }

  /** The clock moves forward from statement to statement. */
  predicate Within(inputs: seq<Input>, from: Time, until: Time)
  {
    && (forall i :: 0 <= i < |inputs| ==> from <= inputs[i].now <= until)
    && (forall i, j :: 0 <= i < j < |inputs| ==> inputs[i].now <= inputs[j].now)
  }

  // ----- writes in a row -----------------------------------------------------------------------

  ghost function WriteAll(fk: bool, u: User, t: Tables, ws: seq<Write>, inputs: seq<Input>): Option<Tables>
    requires |ws| <= |inputs|
    decreases ws
  {
    if ws == [] then Some(t)
    else
      match Do(fk, u, t, ws[0], inputs[0].now)
      case None => None
      case Some(t') => WriteAll(fk, u, t', ws[1..], inputs[1..])
  }

  /** A transaction with pending writes does them first. */
  lemma {:induction false} WritesFirst(fk: bool, u: User, z: Sizes, t: Tables, p: Point, inputs: seq<Input>, t': Tables)
    requires Finishes(fk, u, z, t, p, inputs, t')
    ensures |p.writes| <= |inputs|
    ensures var mid := WriteAll(fk, u, t, p.writes, inputs);
      mid.Some? && Finishes(fk, u, z, mid.value, Point([], p.upcoming), inputs[|p.writes|..], t')
    decreases inputs
  {
    if p.writes == [] {
      assert inputs[0..] == inputs;
      assert p == Point([], p.upcoming);
    } else {
      var o := Execute(fk, u, z, t, p, inputs[0]);
      WritesFirst(fk, u, z, o.t, o.at, inputs[1..], t');
      assert inputs[1..][|p.writes| - 1..] == inputs[|p.writes|..];
    }
  }

  lemma {:induction false} WriteAllSplit(fk: bool, u: User, t: Tables, a: seq<Write>, b: seq<Write>, inputs: seq<Input>)
    requires |a + b| <= |inputs|
    ensures WriteAll(fk, u, t, a + b, inputs) ==
      var mid := WriteAll(fk, u, t, a, inputs);
      if mid.None? then None else WriteAll(fk, u, mid.value, b, inputs[|a|..])
    decreases a
  {
    if a == [] {
      assert a + b == b && inputs[0..] == inputs;
    } else {
      assert (a + b)[1..] == a[1..] + b;
      var t1 := Do(fk, u, t, a[0], inputs[0].now);
      if t1.Some? {
        WriteAllSplit(fk, u, t1.value, a[1..], b, inputs[1..]);
        assert inputs[1..][|a| - 1..] == inputs[|a|..];
      }
    }
  }

  /** Nothing left to write and Commit next: the transaction is over. */
  lemma OnlyCommit(fk: bool, u: User, z: Sizes, t: Tables, inputs: seq<Input>, t': Tables)
    requires Finishes(fk, u, z, t, Point([], Commit), inputs, t')
    ensures inputs == [] && t == t'
  {}

  /** A transaction in its last writes. */
  lemma LastWrites(fk: bool, u: User, z: Sizes, t: Tables, ws: seq<Write>, inputs: seq<Input>, t': Tables)
    requires Finishes(fk, u, z, t, Point(ws, Commit), inputs, t')
    ensures |inputs| == |ws| && WriteAll(fk, u, t, ws, inputs) == Some(t')
  {
    WritesFirst(fk, u, z, t, Point(ws, Commit), inputs, t');
    OnlyCommit(fk, u, z, WriteAll(fk, u, t, ws, inputs).value, inputs[|ws|..], t');
  }

  // ----- chunks --------------------------------------------------------------------------------

  /** The last node with an id, in a list of two parts. */
  lemma {:induction false} LastOfConcat(a: seq<TreeNode>, b: seq<TreeNode>, id: Id)
    requires id in Ids(a + b)
    ensures id in Ids(b) ==> LastOf(a + b, id) == LastOf(b, id)
    ensures id !in Ids(b) ==> id in Ids(a) && LastOf(a + b, id) == LastOf(a, id)
    decreases b
  {
    IdsConcat(a, b);
    if b == [] {
      assert a + b == a;
    } else {
      var n := |b| - 1;
      var last := b[n];
      assert (a + b)[|a + b| - 1] == last;
      assert (a + b)[..|a + b| - 1] == a + b[..n];
      assert b == b[..n] + [last];
      IdsConcat(b[..n], [last]);
      IdsConcat(a, b[..n]);
      if last.id != id {
        LastOfConcat(a, b[..n], id);
      }
    }
  }

  lemma UpsertTwiceRow(t: Tables, t1: Tables, u: User, a: seq<TreeNode>, b: seq<TreeNode>, missing: bool,
                       atA: Id -> Time, atB: Id -> Time, at: Id -> Time, k: Key)
    requires forall id :: at(id) == if id in Ids(b) then atB(id) else atA(id)
    requires Ids(a + b) == Ids(a) + Ids(b) && t1 == UpsertLeaves(t, u, a, missing, atA)
    requires k in t.leaves.Keys + Keys(u, Ids(a + b))
    ensures UpsertLeaves(t1, u, b, missing, atB).leaves[k] == UpsertLeaves(t, u, a + b, missing, at).leaves[k]
  {
    if k.user == u && k.id in Ids(a + b) {
      LastOfConcat(a, b, k.id);
    }
  }

  lemma SameLeafMaps(l: Tables, r: Tables)
    requires l.leaves.Keys == r.leaves.Keys && forall k :: k in l.leaves.Keys ==> l.leaves[k] == r.leaves[k]
    requires l.reservations == r.reservations && l.spent == r.spent && l.chains == r.chains && l.swaps == r.swaps
    ensures l == r
  {
    assert l.leaves == r.leaves;
  }

  /** Upserting a list in two parts is upserting it whole, later additions winning. */
  lemma UpsertConcat(t: Tables, u: User, a: seq<TreeNode>, b: seq<TreeNode>, missing: bool,
                     atA: Id -> Time, atB: Id -> Time, at: Id -> Time)
    requires forall id :: at(id) == if id in Ids(b) then atB(id) else atA(id)
    ensures UpsertLeaves(UpsertLeaves(t, u, a, missing, atA), u, b, missing, atB) ==
      UpsertLeaves(t, u, a + b, missing, at)
  {
    IdsConcat(a, b);
    var t1 := UpsertLeaves(t, u, a, missing, atA);
    UpsertTwiceRows(t, t1, u, a, b, missing, atA, atB, at);
    SameLeafMaps(UpsertLeaves(t1, u, b, missing, atB), UpsertLeaves(t, u, a + b, missing, at));
  }

  lemma UpsertTwiceRows(t: Tables, t1: Tables, u: User, a: seq<TreeNode>, b: seq<TreeNode>, missing: bool,
                        atA: Id -> Time, atB: Id -> Time, at: Id -> Time)
    requires forall id :: at(id) == if id in Ids(b) then atB(id) else atA(id)
    requires Ids(a + b) == Ids(a) + Ids(b) && t1 == UpsertLeaves(t, u, a, missing, atA)
    ensures UpsertLeaves(t1, u, b, missing, atB).leaves.Keys == UpsertLeaves(t, u, a + b, missing, at).leaves.Keys
    ensures forall k :: k in UpsertLeaves(t1, u, b, missing, atB).leaves.Keys ==>
      UpsertLeaves(t1, u, b, missing, atB).leaves[k] == UpsertLeaves(t, u, a + b, missing, at).leaves[k]
  {
    assert Keys(u, Ids(a + b)) == Keys(u, Ids(a)) + Keys(u, Ids(b));
    var l, r, keys := UpsertLeaves(t1, u, b, missing, atB), UpsertLeaves(t, u, a + b, missing, at), t.leaves.Keys +
      Keys(u, Ids(a + b));
    assert l.leaves.Keys == keys by {
      UpsertKeys(t, u, a, missing, atA);
      UpsertKeys(t1, u, b, missing, atB);
    }
    assert r.leaves.Keys == keys by {
      UpsertKeys(t, u, a + b, missing, at);
    }
    forall k | k in keys ensures l.leaves[k] == r.leaves[k] {
      UpsertTwiceRow(t, t1, u, a, b, missing, atA, atB, at, k);
    }
  }

  lemma UpsertNothing(t: Tables, u: User, missing: bool, at: Id -> Time)
    ensures UpsertLeaves(t, u, [], missing, at) == t
  {
    assert UpsertLeaves(t, u, [], missing, at).leaves == t.leaves;
  }

  /** Whatever the chunk size, the chunks of an upsert add up to the upsert of the whole list;
      each row carries the time of its own chunk. */
  lemma {:induction false} PutsUpsert(fk: bool, u: User, t: Tables, nodes: seq<TreeNode>, n: nat, missing: bool,
                                      inputs: seq<Input>, from: Time, until: Time) returns (at: Id -> Time)
    requires n > 0 && |Puts(nodes, n, missing)| <= |inputs| && Within(inputs, from, until) && from <= until
    ensures WriteAll(fk, u, t, Puts(nodes, n, missing), inputs) == Some(UpsertLeaves(t, u, nodes, missing, at))
    ensures forall id :: from <= at(id) <= until
    decreases nodes
  {
    if nodes == [] {
      at := (id: Id) => from;
      UpsertNothing(t, u, missing, at);
    } else {
      var c := Cut(nodes, n);
      var first, rest, now := nodes[..c], nodes[c..], inputs[0].now;
      var t1 := UpsertLeaves(t, u, first, missing, (id: Id) => now);
      var atRest := PutsUpsert(fk, u, t1, rest, n, missing, inputs[1..], from, until);
      at := (id: Id) => if id in Ids(rest) then atRest(id) else now;
      UpsertConcat(t, u, first, rest, missing, (id: Id) => now, atRest, at);
      assert first + rest == nodes;
    }
  }

  lemma DeleteChainsConcat(t: Tables, u: User, a: set<Id>, b: set<Id>)
    ensures DeleteChains(DeleteChains(t, u, a), u, b) == DeleteChains(t, u, a + b)
  {
    assert ChainsWithout(ChainsWithout(t.chains, u, a), u, b) == ChainsWithout(t.chains, u, a + b);
  }

  lemma DeleteNoChains(t: Tables, u: User)
    ensures DeleteChains(t, u, {}) == t
  {
    assert ChainsWithout(t.chains, u, {}) == t.chains;
  }

  lemma IdSetConcat(a: seq<Id>, b: seq<Id>)
    ensures IdSet(a + b) == IdSet(a) + IdSet(b)
  {}

  lemma FirstWrite(fk: bool, u: User, t: Tables, w: Write, rest: seq<Write>, inputs: seq<Input>)
    requires 1 + |rest| <= |inputs|
    ensures WriteAll(fk, u, t, Prepend(w, rest), inputs) ==
      var t1 := Do(fk, u, t, w, inputs[0].now);
      if t1.None? then None else WriteAll(fk, u, t1.value, rest, inputs[1..])
  {}

  lemma FirstChainDrop(fk: bool, u: User, t: Tables, ids: seq<Id>, n: nat, inputs: seq<Input>)
    requires n > 0 && ids != [] && |ChainDrops(ids, n)| <= |inputs|
    ensures var c := Cut(ids, n);
      && |ChainDrops(ids[c..], n)| <= |inputs| - 1
      && WriteAll(fk, u, t, ChainDrops(ids, n), inputs)
         == WriteAll(fk, u, DeleteChains(t, u, IdSet(ids[..c])), ChainDrops(ids[c..], n), inputs[1..])
  {
    var c := Cut(ids, n);
    FirstWrite(fk, u, t, DropChains(IdSet(ids[..c])), ChainDrops(ids[c..], n), inputs);
  }

  lemma {:induction false} ChainDropsDelete(fk: bool, u: User, t: Tables, ids: seq<Id>, n: nat, inputs: seq<Input>)
    requires n > 0 && |ChainDrops(ids, n)| <= |inputs|
    ensures WriteAll(fk, u, t, ChainDrops(ids, n), inputs) == Some(DeleteChains(t, u, IdSet(ids)))
    decreases ids
  {
    if ids == [] {
      assert IdSet(ids) == {};
      DeleteNoChains(t, u);
    } else {
      var c := Cut(ids, n);
      FirstChainDrop(fk, u, t, ids, n, inputs);
      ChainDropsDelete(fk, u, DeleteChains(t, u, IdSet(ids[..c])), ids[c..], n, inputs[1..]);
      DeleteInTwo(t, u, ids, c);
    }
  }

  lemma DeleteInTwo(t: Tables, u: User, ids: seq<Id>, c: nat)
    requires c <= |ids|
    ensures DeleteChains(DeleteChains(t, u, IdSet(ids[..c])), u, IdSet(ids[c..])) == DeleteChains(t, u, IdSet(ids))
  {
    DeleteChainsConcat(t, u, IdSet(ids[..c]), IdSet(ids[c..]));
    IdSetConcat(ids[..c], ids[c..]);
    assert ids[..c] + ids[c..] == ids;
  }

  lemma {:induction false} LeavingIds(ids: seq<Id>, reported: set<Id>)
    ensures IdSet(Leaving(ids, reported)) == IdSet(ids) - reported
    decreases ids
  {
    if ids != [] {
      LeavingIds(ids[1..], reported);
      IdSetConcat([ids[0]], ids[1..]);
      assert ids == [ids[0]] + ids[1..];
      assert IdSet([ids[0]]) == {ids[0]};
      if ids[0] !in reported {
        IdSetConcat([ids[0]], Leaving(ids[1..], reported));
        assert Leaving(ids, reported) == [ids[0]] + Leaving(ids[1..], reported);
      }
    }
  }

  lemma {:induction false} InsertChainsConcat(t: Tables, u: User, a: seq<ChainRow>, b: seq<ChainRow>)
    ensures InsertChains(t, u, a + b) == InsertChains(InsertChains(t, u, a), u, b)
    decreases a
  {
    if a == [] {
      assert a + b == b;
    } else {
      assert (a + b)[1..] == a[1..] + b;
      InsertChainsConcat(t.(chains := t.chains[ChainKeyOf(u, a[0]) := a[0].node]), u, a[1..], b);
    }
  }

  lemma {:induction false} InsertChainsHolds(t: Tables, u: User, rows: seq<ChainRow>)
    ensures forall r :: r in rows ==> ChainKeyOf(u, r) in InsertChains(t, u, rows).chains
    ensures forall c :: c in t.chains ==> c in InsertChains(t, u, rows).chains
    decreases rows
  {
    if rows != [] {
      InsertChainsHolds(t.(chains := t.chains[ChainKeyOf(u, rows[0]) := rows[0].node]), u, rows[1..]);
      forall r | r in rows ensures r == rows[0] || r in rows[1..] {
      }
    }
  }

  ghost predicate Fit(u: User, t: Tables, rows: seq<ChainRow>)
  {
    DistinctRows(rows) && forall r :: r in rows ==> ChainKeyOf(u, r) !in t.chains
  }

  lemma FirstRowInsert(fk: bool, u: User, t: Tables, rows: seq<ChainRow>, n: nat, inputs: seq<Input>)
    requires n > 0 && rows != [] && |RowInserts(rows, n)| <= |inputs|
    requires WriteAll(fk, u, t, RowInserts(rows, n), inputs).Some?
    ensures var c := Cut(rows, n);
      && |RowInserts(rows[c..], n)| <= |inputs| - 1 && Fit(u, t, rows[..c])
      && WriteAll(fk, u, t, RowInserts(rows, n), inputs)
         == WriteAll(fk, u, InsertChains(t, u, rows[..c]), RowInserts(rows[c..], n), inputs[1..])
  {
    var c := Cut(rows, n);
    FirstWrite(fk, u, t, InsertRows(rows[..c]), RowInserts(rows[c..], n), inputs);
  }

  lemma FitInTwo(u: User, t: Tables, rows: seq<ChainRow>, c: nat)
    requires c <= |rows| && Fit(u, t, rows[..c]) && Fit(u, InsertChains(t, u, rows[..c]), rows[c..])
    ensures Fit(u, t, rows)
    ensures InsertChains(InsertChains(t, u, rows[..c]), u, rows[c..]) == InsertChains(t, u, rows)
  {
    var first, rest := rows[..c], rows[c..];
    InsertChainsHolds(t, u, first);
    InsertChainsConcat(t, u, first, rest);
    assert first + rest == rows;
    DistinctParts(u, first, rest);
  }

  /** The chunked inserts succeed only when the primary key admits every row at once. */
  lemma {:induction false} RowInsertsInsert(fk: bool, u: User, t: Tables, rows: seq<ChainRow>, n: nat,
                                            inputs: seq<Input>)
    requires n > 0 && |RowInserts(rows, n)| <= |inputs|
    requires WriteAll(fk, u, t, RowInserts(rows, n), inputs).Some?
    ensures Fit(u, t, rows)
    ensures WriteAll(fk, u, t, RowInserts(rows, n), inputs) == Some(InsertChains(t, u, rows))
    decreases rows
  {
    if rows != [] {
      var c := Cut(rows, n);
      FirstRowInsert(fk, u, t, rows, n, inputs);
      RowInsertsInsert(fk, u, InsertChains(t, u, rows[..c]), rows[c..], n, inputs[1..]);
      FitInTwo(u, t, rows, c);
    }
  }

  lemma DistinctParts(u: User, a: seq<ChainRow>, b: seq<ChainRow>)
    requires DistinctRows(a) && DistinctRows(b)
    requires forall r, s :: r in a && s in b ==> ChainKeyOf(u, r) != ChainKeyOf(u, s)
    ensures DistinctRows(a + b)
  {
    var rows := a + b;
    forall i, j | 0 <= i < j < |rows| ensures rows[i].leaf != rows[j].leaf || rows[i].node.id != rows[j].node.id {
      if i < |a| <= j {
        assert rows[i] in a && rows[j] in b;
        assert ChainKeyOf(u, rows[i]) != ChainKeyOf(u, rows[j]);
      }
    }
  }

  lemma {:induction false} StorableConcat(t: Tables, u: User, a: seq<Pedigree>, b: seq<Pedigree>)
    ensures Storable(t, u, a + b) == Storable(t, u, a) + Storable(t, u, b)
    decreases a
  {
    if a == [] {
      assert a + b == b;
    } else {
      assert (a + b)[1..] == a[1..] + b;
      StorableConcat(t, u, a[1..], b);
    }
  }
}

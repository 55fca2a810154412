/** The balance: the aggregate query against the classified lists, and what each operation does
    to it. */
module TreeBalance {
  import opened Base
  import opened TreeTables
  import opened LeafSelection
  import opened SelectionFacts
  import opened TreeOps
  import opened TreeInvariants
  import opened TreeAllocation

  // ----- the aggregate and the lists ---------------------------------------------------------------

  /** The reservation joined to a leaf row, by tenant and id; None on a join miss. */
  function PurposeOf(t: Tables, k: Key): Option<Purpose>
    requires k in t.leaves
  {
    var r := t.leaves[k].reservation;
    if r.Some? && Key(k.user,
      r.value) in t.reservations then Some(t.reservations[Key(k.user, r.value)].purpose) else None
  }

  /** The rows the aggregate query sums: unreserved available leaves and swap-reserved ones. */
  predicate Counted(t: Tables, k: Key)
    requires k in t.leaves
  {
    (t.leaves[k].reservation.None? && t.leaves[k].status == Available) || PurposeOf(t, k) == Some(Swap)
  }

  function CountedKeys(t: Tables, u: User): set<Key>
  {
    set k | k in t.leaves && k.user == u && Counted(t, k)
  }

  ghost function Balance(t: Tables, u: User): int
  {
    Sum(CountedKeys(t, u), ValueColumn(t.leaves))
  }

  datatype Class = AvailableClass | NotAvailableClass | MissingClass | PaymentClass | SwapClass

  /** The list `get_leaves` puts a leaf into. */
  function ClassOf(t: Tables, k: Key): Class
    requires k in t.leaves
  {
    match PurposeOf(t, k)
    case Some(Payment) => PaymentClass
    case Some(Swap) => SwapClass
    case None =>
      if t.leaves[k].data.status != Available then NotAvailableClass
      else if t.leaves[k].missing then MissingClass
      else AvailableClass
  }

  /** The leaf names a reservation that is there, of this purpose. */
  predicate ReservedFor(t: Tables, k: Key, purpose: Purpose)
    requires k in t.leaves
  {
    var r := t.leaves[k].reservation;
    r.Some? && Key(k.user, r.value) in t.reservations && t.reservations[Key(k.user, r.value)].purpose == purpose
  }

  predicate Unreserved(t: Tables, k: Key)
    requires k in t.leaves
  {
    t.leaves[k].reservation.None?
  }

  ghost function ClassKeys(t: Tables, u: User, c: Class): set<Key>
  {
    set k | k in t.leaves && k.user == u && ClassOf(t, k) == c
  }

  /** In a reachable state the list of available leaves is exactly what a reservation may take; the
      other lists are the unreserved leaves that are not available, the unreserved available ones
      some operator misses, and the leaves of each kind of reservation. */
  lemma ListsMean(t: Tables, clock: Time, u: User)
    requires Inv(t, clock)
    ensures ClassKeys(t, u, AvailableClass) == EligibleKeys(t, u)
    ensures ClassKeys(t, u, NotAvailableClass)
      == set k | k in t.leaves && k.user == u && Unreserved(t, k) && t.leaves[k].status != Available
    ensures ClassKeys(t, u, MissingClass)
      == set k | k in t.leaves && k.user == u && Unreserved(t, k) && t.leaves[k].status == Available
           && t.leaves[k].missing
    ensures ClassKeys(t, u, PaymentClass) == set k | k in t.leaves && k.user == u && ReservedFor(t, k, Payment)
    ensures ClassKeys(t, u, SwapClass) == set k | k in t.leaves && k.user == u && ReservedFor(t, k, Swap)
  {
    forall k | k in t.leaves ensures LeafOk(t, clock, k) {
    }
  }

  /** The value of the stored node, which the lists carry. */
  function NodeValue(leaves: map<Key, LeafRow>): Key -> int
  {
    (k: Key) => if k in leaves then leaves[k].data.value else 0
  }

  ghost function ClassTotal(t: Tables, u: User, c: Class): int
  {
    Sum(ClassKeys(t, u, c), NodeValue(t.leaves))
  }

  /** `Leaves::balance`: available, missing from operators and reserved for a swap. */
  ghost function ListBalance(t: Tables, u: User): int
  {
    ClassTotal(t, u, AvailableClass) + ClassTotal(t, u, MissingClass) + ClassTotal(t, u, SwapClass)
  }

  /** Leaves that name a reservation which is not there. */
  ghost function DanglingAvailable(t: Tables, u: User): set<Key>
  {
    set k | k in t.leaves && k.user == u && t.leaves[k].reservation.Some? && PurposeOf(t, k).None?
      && t.leaves[k].data.status == Available
  }

  ghost predicate NodeValuesFit(t: Tables, u: User)
  {
    forall k :: k in t.leaves && k.user == u ==> t.leaves[k].data.value <= I64_MAX
  }

  /** The lists count exactly what the aggregate counts, plus the available leaves that name a
      reservation which is gone. */
  lemma ListsExceedByDangling(t: Tables, u: User)
    requires forall k :: k in t.leaves && k.user == u ==> RowAgrees(k.id, t.leaves[k])
    requires NodeValuesFit(t, u)
    ensures ListBalance(t, u) == Balance(t, u) + Sum(DanglingAvailable(t, u), NodeValue(t.leaves))
  {
    var a, m, s := ClassKeys(t, u, AvailableClass), ClassKeys(t, u, MissingClass), ClassKeys(t, u, SwapClass);
    var counted, dangling, f := CountedKeys(t, u), DanglingAvailable(t, u), NodeValue(t.leaves);
    SumUnion(a, m, f);
    SumUnion(a + m, s, f);
    ClassesPartition(t, u);
    SumUnion(counted, dangling, f);
    forall k | k in counted ensures f(k) == ValueColumn(t.leaves)(k) {
      assert RowAgrees(k.id, t.leaves[k]);
    }
    SumSame(counted, f, ValueColumn(t.leaves));
  }

  lemma ClassesPartition(t: Tables, u: User)
    requires forall k :: k in t.leaves && k.user == u ==> RowAgrees(k.id, t.leaves[k])
    ensures ClassKeys(t, u, AvailableClass) + ClassKeys(t, u, MissingClass) + ClassKeys(t, u, SwapClass)
      == CountedKeys(t, u) + DanglingAvailable(t, u)
    ensures CountedKeys(t, u) !! DanglingAvailable(t, u)
  {
    var lists := ClassKeys(t, u, AvailableClass) + ClassKeys(t, u, MissingClass) + ClassKeys(t, u, SwapClass);
    forall k | k in t.leaves && k.user == u ensures k in lists <==> k in CountedKeys(t, u) + DanglingAvailable(t, u) {
      assert RowAgrees(k.id, t.leaves[k]);
    }
  }

  /** The aggregate balance equals the lists' exactly when the available leaves naming a missing
      reservation are worth nothing. */
  lemma BalancesAgreeIff(t: Tables, u: User)
    requires forall k :: k in t.leaves && k.user == u ==> RowAgrees(k.id, t.leaves[k])
    requires NodeValuesFit(t, u)
    ensures Balance(t, u) == ListBalance(t, u) <==>
      forall k :: k in DanglingAvailable(t, u) ==> t.leaves[k].data.value == 0
  {
    ListsExceedByDangling(t, u);
    var d, f := DanglingAvailable(t, u), NodeValue(t.leaves);
    if k :| k in d && t.leaves[k].data.value != 0 {
      SumRemove(d, f, k);
      SumNonNegative(d - {k}, f);
    } else {
      SumSame(d, f, (k: Key) => 0);
      SumZero(d);
    }
  }

  lemma {:induction false} SumZero(s: set<Key>)
    ensures Sum(s, (k: Key) => 0) == 0
    decreases s
  {
    if s != {} {
      var x :| x in s;
      SumZero(s - {x});
      SumRemove(s, (k: Key) => 0, x);
    }
  }

  /** In every reachable state the aggregate balance equals the lists' balance. */
  lemma ReachableBalancesAgree(fk: bool, t: Tables, clock: Time, es: seq<Event>, u: User)
    requires Inv(t, clock) && ValidRun(fk, t, clock, es) && LinkedRun(fk, t, es)
    requires NodeValuesFit(Run(fk, t, es), u)
    ensures Balance(Run(fk, t, es), u) == ListBalance(Run(fk, t, es), u)
  {
    RunKeepsInv(fk, t, clock, es);
    var t' := Run(fk, t, es);
    forall k | k in t'.leaves && k.user == u ensures RowAgrees(k.id, t'.leaves[k]) && k !in DanglingAvailable(t', u) {
      assert LeafOk(t', EndOf(clock, es), k);
    }
    BalancesAgreeIff(t', u);
  }

  // ----- what an operation does to the balance -------------------------------------------------------

  /** Some counted leaves go, others come. */
  lemma BalanceShift(t: Tables, t': Tables, u: User, gone: set<Key>, come: set<Key>)
    requires gone <= CountedKeys(t, u)
    requires CountedKeys(t', u) == (CountedKeys(t, u) - gone) + come
    requires come !! CountedKeys(t, u) - gone
    requires forall k :: k in CountedKeys(t, u) - gone ==> k in t'.leaves && t'.leaves[k].value == t.leaves[k].value
    ensures Balance(t', u) == Balance(t, u) - Sum(gone, ValueColumn(t.leaves)) + Sum(come, ValueColumn(t'.leaves))
  {
    var stay, f, f' := CountedKeys(t, u) - gone, ValueColumn(t.leaves), ValueColumn(t'.leaves);
    SumSplit(CountedKeys(t, u), gone, f);
    SumUnion(stay, come, f');
    SumSame(stay, f, f');
  }

  predicate DistinctNodes(nodes: seq<TreeNode>)
  {
    forall i, j :: 0 <= i < j < |nodes| ==> nodes[i].id != nodes[j].id
  }

  /** New leaves: distinct ids the pool does not hold, available, with values that fit the column. */
  ghost predicate NewToPool(t: Tables, u: User, nodes: seq<TreeNode>)
  {
    DistinctNodes(nodes)
    && forall n :: n in nodes ==> Key(u, n.id) !in t.leaves && n.status == Available && n.value <= I64_MAX
  }

  /** The rows of distinct nodes total the nodes. */
  lemma {:induction false} RowsTotalNodes(leaves: map<Key, LeafRow>, u: User, nodes: seq<TreeNode>)
    requires DistinctNodes(nodes)
    requires forall n :: n in nodes ==> Key(u, n.id) in leaves && leaves[Key(u, n.id)].value == n.value
    ensures Sum(Keys(u, Ids(nodes)), ValueColumn(leaves)) == NodeTotal(nodes)
    decreases nodes
  {
    if nodes == [] {
      assert Keys(u, Ids(nodes)) == {};
    } else {
      var k, rest := Key(u, nodes[0].id), nodes[1..];
      assert nodes == [nodes[0]] + rest;
      IdsConcat([nodes[0]], rest);
      forall n | n in rest ensures n.id != nodes[0].id && n in nodes {
        var i :| 0 <= i < |rest| && rest[i] == n;
        assert nodes[i + 1] == n;
      }
      RowsTotalNodes(leaves, u, rest);
      assert Keys(u, Ids(nodes)) - {k} == Keys(u, Ids(rest));
      assert nodes[0] in nodes && k in Keys(u, Ids(nodes));
      SumRemove(Keys(u, Ids(nodes)), ValueColumn(leaves), k);
    }
  }

  lemma {:induction false} LastOfDistinct(nodes: seq<TreeNode>, n: TreeNode)
    requires DistinctNodes(nodes) && n in nodes
    ensures n.id in Ids(nodes) && LastOf(nodes, n.id) == n
    decreases nodes
  {
    var i :| 0 <= i < |nodes| && nodes[i] == n;
    var init := nodes[..|nodes| - 1];
    if nodes[|nodes| - 1].id != n.id {
      assert i < |init| && init[i] == n;
      LastOfDistinct(init, n);
    }
  }

  /** Upserting new leaves adds exactly their total. */
  lemma UpsertNewAddsTotal(t: Tables, u: User, nodes: seq<TreeNode>, at: Id -> Time)
    requires NewToPool(t, u, nodes)
    ensures Balance(UpsertLeaves(t, u, nodes, false, at), u) == Balance(t, u) + NodeTotal(nodes)
  {
    var t' := UpsertLeaves(t, u, nodes, false, at);
    UpsertNewCounted(t, u, nodes, at);
    RowsTotalNodes(t'.leaves, u, nodes);
    BalanceShift(t, t', u, {}, Keys(u, Ids(nodes)));
  }

  lemma UpsertNewCounted(t: Tables, u: User, nodes: seq<TreeNode>, at: Id -> Time)
    requires NewToPool(t, u, nodes)
    ensures var t' := UpsertLeaves(t, u, nodes, false, at);
      && (forall n :: n in nodes ==> Key(u, n.id) in t'.leaves && t'.leaves[Key(u, n.id)].value == n.value)
      && CountedKeys(t', u) == CountedKeys(t, u) - {} + Keys(u, Ids(nodes))
      && Keys(u, Ids(nodes)) !! CountedKeys(t, u)
      && forall k :: k in CountedKeys(t, u) ==> k in t'.leaves && t'.leaves[k].value == t.leaves[k].value
  {
    var t' := UpsertLeaves(t, u, nodes, false, at);
    forall n | n in nodes
      ensures Key(u, n.id) in t'.leaves && t'.leaves[Key(u, n.id)] == RowOf(n, false, None, at(n.id))
    {
      LastOfDistinct(nodes, n);
    }
    forall k | k in Keys(u, Ids(nodes)) ensures k !in t.leaves && k in t'.leaves && Counted(t', k) {
      var n :| n in nodes && n.id == k.id;
      assert k == Key(u, n.id);
    }
    forall k | k in t.leaves && k.user == u
      ensures k in t'.leaves && (Counted(t', k) <==> Counted(t, k)) && t'.leaves[k] == t.leaves[k] {
      assert k !in Keys(u, Ids(nodes));
    }
  }

  ghost function HeldTotal(t: Tables, u: User, rid: ReservationId): int
  {
    Sum(Keys(u, HeldBy(t, u, rid)), ValueColumn(t.leaves))
  }

  /** Settling a reservation costs what it held if it was for a swap, and nothing more if it was
      for a payment: a payment's leaves had already left the balance. */
  lemma SettleCosts(t: Tables, u: User, rid: ReservationId, spentAt: Time)
    requires IsLive(t, u, rid)
    ensures Balance(Settled(t, u, rid, spentAt), u)
      == Balance(t, u) - (if IsSwap(t, u, rid) then HeldTotal(t, u, rid) else 0)
  {
    SpentCosts(t, Settled(t, u, rid, spentAt), u, rid);
  }

  lemma SpentCosts(t: Tables, t': Tables, u: User, rid: ReservationId)
    requires IsLive(t, u, rid)
    requires t'.leaves == t.leaves - Keys(u, HeldBy(t, u, rid))
    requires t'.reservations.Keys + {Key(u, rid)} == t.reservations.Keys
    requires forall r :: r in t'.reservations ==> t'.reservations[r].purpose == t.reservations[r].purpose
    ensures Balance(t', u) == Balance(t, u) - (if IsSwap(t, u, rid) then HeldTotal(t, u, rid) else 0)
  {
    var held := Keys(u, HeldBy(t, u, rid));
    var gone := if IsSwap(t, u, rid) then held else {};
    forall k | k in held ensures k in t.leaves && t.leaves[k].reservation == Some(rid) {
    }
    forall k | k in t'.leaves && k.user == u ensures Counted(t', k) <==> Counted(t, k) {
      assert k !in held && t'.leaves[k] == t.leaves[k];
      assert t.leaves[k].reservation == Some(rid) ==> k.id in HeldBy(t, u, rid);
    }
    assert CountedKeys(t', u) == CountedKeys(t, u) - gone + {};
    BalanceShift(t, t', u, gone, {});
  }

  /** Finalizing adds the new leaves and takes what a swap held. */
  lemma FinalizeShiftsBalance(t: Tables, op: Op)
    requires op.Finalize? && IsLive(t, op.user, op.rid)
    requires op.newLeaves.Some? ==> NewToPool(t, op.user, op.newLeaves.value)
    ensures Balance(Finalized(t, op), op.user) == Balance(t, op.user)
      - (if IsSwap(t, op.user, op.rid) then HeldTotal(t, op.user, op.rid) else 0)
      + (if op.newLeaves.Some? then NodeTotal(op.newLeaves.value) else 0)
  {
    var t1 := Settled(t, op.user, op.rid, op.spentAt);
    SettleCosts(t, op.user, op.rid, op.spentAt);
    if op.newLeaves.Some? {
      UpsertNewAddsTotal(t1, op.user, op.newLeaves.value, op.at);
      SwapTimeKeepsBalance(UpsertLeaves(t1, op.user, op.newLeaves.value, false, op.at), Finalized(t, op), op.user);
    }
  }

  lemma SwapTimeKeepsBalance(t: Tables, t': Tables, u: User)
    requires t'.leaves == t.leaves && t'.reservations.Keys == t.reservations.Keys
    requires forall r :: r in t.reservations ==> t'.reservations[r].purpose == t.reservations[r].purpose
    ensures Balance(t', u) == Balance(t, u)
  {
    assert CountedKeys(t', u) == CountedKeys(t, u);
  }

  /** A swap whose new leaves total what it held never changes the balance. */
  lemma FairSwapKeepsBalance(t: Tables, op: Op)
    requires op.Finalize? && IsSwap(t, op.user, op.rid) && op.newLeaves.Some?
    requires NewToPool(t, op.user, op.newLeaves.value)
    ensures Balance(Finalized(t, op), op.user) == Balance(t, op.user)
      <==> NodeTotal(op.newLeaves.value) == HeldTotal(t, op.user, op.rid)
  {
    FinalizeShiftsBalance(t, op);
  }

  /** Opening a reservation on eligible leaves costs the balance their value for a payment and
      nothing for a swap. */
  lemma ReserveShiftsBalance(t: Tables, u: User, rid: ReservationId, ids: set<Id>, purpose: Purpose, pending: U64,
                             now: Time)
    requires !IsLive(t, u, rid) && HeldBy(t, u, rid) == {}
    requires forall id :: id in ids ==> Key(u, id) in EligibleKeys(t, u)
    ensures var t' := CreateReservation(t, u, rid, ids, purpose, pending, now);
      && Balance(t', u) == Balance(t, u) - (if purpose == Swap then 0 else Sum(Keys(u, ids), ValueColumn(t.leaves)))
      && HeldBy(t', u, rid) == ids
      && HeldTotal(t', u, rid) == Sum(Keys(u, ids), ValueColumn(t.leaves))
  {
    var t' := CreateReservation(t, u, rid, ids, purpose, pending, now);
    var gone := if purpose == Swap then {} else Keys(u, ids);
    forall k | k in t.leaves && k.user == u ensures Counted(t', k) <==> Counted(t, k) && k !in gone {
      assert t.leaves[k].reservation == Some(rid) ==> k.id in HeldBy(t, u, rid);
    }
    assert CountedKeys(t', u) == CountedKeys(t, u) - gone + {};
    BalanceShift(t, t', u, gone, {});
    forall id | id in ids ensures id in HeldBy(t', u, rid) {
      assert Key(u, id) in t'.leaves;
    }
    forall id | id in HeldBy(t', u, rid) ensures id in ids {
      assert Key(u, id) in t.leaves && (t.leaves[Key(u, id)].reservation == Some(rid) ==> id in HeldBy(t, u, rid));
    }
    SumSame(Keys(u, ids), ValueColumn(t'.leaves), ValueColumn(t.leaves));
  }
}

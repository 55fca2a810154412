/** The tables of the leaf store, shared by every tenant, and the SQL statements that change
    them. Every statement is scoped to one tenant by its `user_id` parameter. */
module TreeTables {
  import opened Base

  type Id = string
  type User = string
  type ReservationId = string
  /** Microseconds. */
  type Time = int

  type U64 = v: nat | v < 0x1_0000_0000_0000_0000

  /** Reservations older than this are released by a refresh. */
  const RESERVATION_TIMEOUT: Time := 300 * 1_000_000
  /** Spent markers older than this, counted from the refresh start, are dropped by a refresh. */
  const SPENT_MARKER_CLEANUP_THRESHOLD: Time := 5 * 60 * 1000 * 1000

  datatype Status = Available | Other(name: string)
  datatype Purpose = Payment | Swap

  /** A node as the operators report it; `keys` stands for the fields no query looks at. */
  datatype TreeNode = TreeNode(id: Id, parent: Option<Id>, value: U64, status: Status, keys: string)

  /** A node and its exit chain. */
  datatype Pedigree = Pedigree(leaf: TreeNode, ancestors: seq<TreeNode>)

  datatype Key = Key(user: User, id: Id)
  datatype ChainKey = ChainKey(user: User, leaf: Id, node: Id)

  /** `data` is the stored node; `status`, `value` and `parent` are the columns promoted out of it. */
  datatype LeafRow = LeafRow(
    status: Status, missing: bool, reservation: Option<ReservationId>, data: TreeNode,
    value: int, parent: Option<Id>, addedAt: Time)
  datatype Reservation = Reservation(purpose: Purpose, pending: int, createdAt: Time)

  datatype Tables = Tables(
    leaves: map<Key, LeafRow>,
    reservations: map<Key, Reservation>,
    spent: map<Key, Time>,
    chains: map<ChainKey, TreeNode>,
    swaps: map<User, Time>)

  /** `value as i64`: the value column is a signed 64-bit integer. */
  function AsI64(v: int): (r: int)
    requires 0 <= v < 0x1_0000_0000_0000_0000
    ensures r == v <==> v < 0x8000_0000_0000_0000
  {
    if v < 0x8000_0000_0000_0000 then v else v - 0x1_0000_0000_0000_0000
  }

  function Ids(nodes: seq<TreeNode>): set<Id>
  {
    set n | n in nodes :: n.id
  }

  function Keys(u: User, ids: set<Id>): (r: set<Key>)
    ensures forall k :: k in r <==> k.user == u && k.id in ids
  {
    var r := set id | id in ids :: Key(u, id);
    assert forall k: Key :: k.user == u && k.id in ids ==> k == Key(u, k.id);
    r
  }

  /** The last node of the list with this id: the one that survives an upsert of the list. */
  function LastOf(nodes: seq<TreeNode>, id: Id): (n: TreeNode)
    requires id in Ids(nodes)
    ensures n in nodes && n.id == id
  {
    var last := nodes[|nodes| - 1];
    if last.id == id then last else
      assert nodes == nodes[..|nodes| - 1] + [last];
      LastOf(nodes[..|nodes| - 1], id)
  }

  function RowOf(node: TreeNode, missing: bool, reservation: Option<ReservationId>, at: Time): LeafRow
  {
    LeafRow(node.status, missing, reservation, node, AsI64(node.value), node.parent, at)
  }

  function HeldBy(t: Tables, u: User, rid: ReservationId): set<Id>
  {
    set k | k in t.leaves && k.user == u && t.leaves[k].reservation == Some(rid) :: k.id
  }

  predicate IsLive(t: Tables, u: User, rid: ReservationId) { Key(u, rid) in t.reservations }

  /** The `WHERE` clause every selection of spendable leaves uses. */
  predicate Eligible(row: LeafRow)
  {
    row.status == Available && !row.missing && row.reservation.None?
  }

  // ----- statements ---------------------------------------------------------------------------

  /** INSERT ... ON DUPLICATE KEY UPDATE: replaces every column but the reservation. */
  function UpsertLeaves(t: Tables, u: User, nodes: seq<TreeNode>, missing: bool, at: Id -> Time): Tables
  {
    t.(leaves := map k | k in t.leaves.Keys + Keys(u, Ids(nodes)) ::
      if k.user == u && k.id in Ids(nodes)
      then RowOf(LastOf(nodes, k.id), missing, if k in t.leaves then t.leaves[k].reservation else None, at(k.id))
      else t.leaves[k])
  }

  /** The nodes an upsert keeps when told to skip some ids. */
  function Without(nodes: seq<TreeNode>, skip: set<Id>): seq<TreeNode>
  {
    if nodes == [] then []
    else (if nodes[0].id in skip then [] else [nodes[0]]) + Without(nodes[1..], skip)
  }

  function DeleteLeaves(t: Tables, gone: set<Key>): Tables
  {
    t.(leaves := t.leaves - gone)
  }

  function ChainsWithout(chains: map<ChainKey, TreeNode>, u: User, ids: set<Id>): map<ChainKey, TreeNode>
  {
    map c | c in chains && !(c.user == u && c.leaf in ids) :: chains[c]
  }

  function DeleteChains(t: Tables, u: User, ids: set<Id>): Tables
  {
    t.(chains := ChainsWithout(t.chains, u, ids))
  }

  /** Markers already there keep their time. */
  function MarkSpent(t: Tables, u: User, ids: set<Id>, at: Time): Tables
  {
    t.(spent := map k | k in t.spent.Keys + Keys(u, ids) :: if k in t.spent then t.spent[k] else at)
  }

  function UnmarkSpent(t: Tables, u: User, ids: set<Id>): Tables
  {
    t.(spent := t.spent - Keys(u, ids))
  }

  function SetReservation(t: Tables, u: User, ids: set<Id>, rid: ReservationId): Tables
  {
    t.(leaves := map k | k in t.leaves ::
      if k.user == u && k.id in ids then t.leaves[k].(reservation := Some(rid)) else t.leaves[k])
  }

  function DeleteReservation(t: Tables, u: User, rid: ReservationId): Tables
  {
    t.(reservations := t.reservations - {Key(u, rid)})
  }

  predicate TimedOut(r: Reservation, now: Time) { r.createdAt < now - RESERVATION_TIMEOUT }

  /** First half of the stale cleanup: clear the reservation of every leaf a timed-out one holds. */
  function ReleaseStale(t: Tables, u: User, now: Time): Tables
  {
    t.(leaves := map k | k in t.leaves ::
      var row := t.leaves[k];
      if k.user == u && row.reservation.Some? && Key(u, row.reservation.value) in t.reservations
         && TimedOut(t.reservations[Key(u, row.reservation.value)], now)
      then row.(reservation := None) else row)
  }

  /** Second half: delete the timed-out reservations. The statement reads the clock again. */
  function DropStale(t: Tables, u: User, now: Time): Tables
  {
    t.(reservations := map k | k in t.reservations && !(k.user == u && TimedOut(t.reservations[k], now)) ::
      t.reservations[k])
  }

  /** What the foreign key from a tenant's leaves to its reservations demands. */
  predicate NoDangling(t: Tables, u: User)
  {
    forall k :: k in t.leaves && k.user == u && t.leaves[k].reservation.Some? ==>
      Key(u, t.leaves[k].reservation.value) in t.reservations
  }

  function DropOldMarkers(t: Tables, u: User, cutoff: Time): Tables
  {
    t.(spent := map k | k in t.spent && !(k.user == u && t.spent[k] < cutoff) :: t.spent[k])
  }

  /** Ids marked spent at or after the refresh started. */
  function RecentlySpent(t: Tables, u: User, start: Time): set<Id>
  {
    set k | k in t.spent && k.user == u && t.spent[k] >= start :: k.id
  }

  /** Unreserved leaves added before the refresh started. */
  function StaleLeaves(t: Tables, u: User, start: Time): set<Id>
  {
    set k | k in t.leaves && k.user == u && t.leaves[k].reservation.None? && t.leaves[k].addedAt < start :: k.id
  }
}

/** Exit chains: a leaf the store does not report as missing its chain can walk from its current
    parent to a root through its own stored rows. */
module ExitChains {
  import opened Base
  import opened TreeTables
  import opened LeafSelection
  import opened TreeOps
  import opened TreeInvariants
  import opened TreeRefresh

  /** `leaves_missing_exit_chains`: leaves with a parent their own rows do not hold. */
  function MissingChains(t: Tables, u: User): set<Id>
  {
    set k | k in t.leaves && k.user == u && t.leaves[k].parent.Some?
      && ChainKey(u, k.id, t.leaves[k].parent.value) !in t.chains :: k.id
  }

  /** A parent-linked list of nodes that ends at a root. */
  predicate RootedList(nodes: seq<TreeNode>)
  {
    && nodes != []
    && (forall i :: 0 <= i < |nodes| - 1 ==> nodes[i].parent == Some(nodes[i + 1].id))
    && nodes[|nodes| - 1].parent.None?
  }

  /** Every chain handed to the store is a parent-linked list to a root. */
  predicate StoresRooted(op: Op)
  {
    op.StoreAncestors? ==> forall p :: p in op.pedigrees && p.ancestors != [] ==> RootedList(p.ancestors)
  }

  /** A path of stored rows of one leaf, from `path[0]` to a root. */
  predicate PathToRoot(t: Tables, u: User, leaf: Id, path: seq<Id>)
  {
    && path != []
    && (forall i :: 0 <= i < |path| ==> ChainKey(u, leaf, path[i]) in t.chains)
    && (forall i :: 0 <= i < |path| - 1 ==> t.chains[ChainKey(u, leaf, path[i])].parent == Some(path[i + 1]))
    && t.chains[ChainKey(u, leaf, path[|path| - 1])].parent.None?
  }

  ghost predicate ReachesRoot(t: Tables, u: User, leaf: Id, node: Id)
  {
    exists path :: PathToRoot(t, u, leaf, path) && path[0] == node
  }

  ghost predicate ChainsRooted(t: Tables)
  {
    forall c :: c in t.chains ==> ReachesRoot(t, c.user, c.leaf, c.node)
  }

  /** Chains only ever leave the store leaf by leaf. */
  ghost predicate DropsWholeChains(t: Tables, t': Tables)
  {
    && (forall c :: c in t'.chains ==> c in t.chains && t'.chains[c] == t.chains[c])
    && (forall c, d :: c in t'.chains && d in t.chains && d.user == c.user && d.leaf == c.leaf ==> d in t'.chains)
  }

  lemma DroppingKeepsRooted(t: Tables, t': Tables)
    requires ChainsRooted(t) && DropsWholeChains(t, t')
    ensures ChainsRooted(t')
  {
    forall c | c in t'.chains ensures ReachesRoot(t', c.user, c.leaf, c.node) {
      assert c in t.chains;
      SameRowsReachRoot(t, t', c);
    }
  }

  /** A leaf whose rows stay reaches the same roots. */
  lemma SameRowsReachRoot(t: Tables, t': Tables, c: ChainKey)
    requires ReachesRoot(t, c.user, c.leaf, c.node)
    requires forall d :: d in t.chains && d.user == c.user && d.leaf == c.leaf ==>
      d in t'.chains && t'.chains[d] == t.chains[d]
    ensures ReachesRoot(t', c.user, c.leaf, c.node)
  {
    var path :| PathToRoot(t, c.user, c.leaf, path) && path[0] == c.node;
    forall i | 0 <= i < |path|
      ensures ChainKey(c.user, c.leaf, path[i]) in t'.chains
        && t'.chains[ChainKey(c.user, c.leaf, path[i])] == t.chains[ChainKey(c.user, c.leaf, path[i])]
    {
      assert ChainKey(c.user, c.leaf, path[i]) in t.chains;
    }
    assert PathToRoot(t', c.user, c.leaf, path);
  }

  // ----- storing chains ------------------------------------------------------------------------------

  lemma {:induction false} InsertChainsStores(t: Tables, u: User, rows: seq<ChainRow>)
    requires DistinctRows(rows)
    ensures forall r :: r in rows ==>
      ChainKeyOf(u, r) in InsertChains(t, u, rows).chains && InsertChains(t, u, rows).chains[ChainKeyOf(u, r)] == r.node
    ensures forall c :: c in t.chains && (forall r :: r in rows ==> c != ChainKeyOf(u, r)) ==>
      c in InsertChains(t, u, rows).chains && InsertChains(t, u, rows).chains[c] == t.chains[c]
    decreases rows
  {
    if rows != [] {
      var t1 := t.(chains := t.chains[ChainKeyOf(u, rows[0]) := rows[0].node]);
      InsertChainsStores(t1, u, rows[1..]);
      forall r | r in rows[1..] ensures ChainKeyOf(u, r) != ChainKeyOf(u, rows[0]) {
        var i :| 0 <= i < |rows| - 1 && rows[1..][i] == r;
        assert rows[i + 1] == r;
      }
      forall r | r in rows ensures r == rows[0] || r in rows[1..] {
      }
    }
  }

  /** Every row comes from one of the pedigrees stored. */
  lemma {:induction false} ChainRowOrigin(ps: seq<Pedigree>, r: ChainRow)
    ensures r in ChainRows(ps) <==> exists p :: p in ps && p.leaf.id == r.leaf && r.node in p.ancestors
    decreases ps
  {
    if ps != [] {
      ChainRowOrigin(ps[1..], r);
      var first := RowsOf(ps[0].leaf.id, ps[0].ancestors);
      assert r in first <==> (ps[0].leaf.id == r.leaf && r.node in ps[0].ancestors) by {
        if r.node in ps[0].ancestors && ps[0].leaf.id == r.leaf {
          var i :| 0 <= i < |ps[0].ancestors| && ps[0].ancestors[i] == r.node;
          assert first[i] == r;
        }
      }
      assert ps == [ps[0]] + ps[1..];
    }
  }

  lemma {:induction false} StorableFrom(t: Tables, u: User, ps: seq<Pedigree>)
    ensures forall p :: p in Storable(t, u, ps) ==> p in ps && p.ancestors != []
    decreases ps
  {
    if ps != [] {
      StorableFrom(t, u, ps[1..]);
    }
  }

  /** The rest of a stored list from any of its nodes is a path to a root. */
  lemma TailIsPath(t: Tables, u: User, leaf: Id, nodes: seq<TreeNode>, i: nat)
    requires RootedList(nodes) && i < |nodes|
    requires forall n :: n in nodes ==> ChainKey(u, leaf, n.id) in t.chains && t.chains[ChainKey(u, leaf, n.id)] == n
    ensures ReachesRoot(t, u, leaf, nodes[i].id)
  {
    var path := seq(|nodes| - i, j requires 0 <= j < |nodes| - i => nodes[i + j].id);
    forall j | 0 <= j < |path| ensures t.chains[ChainKey(u, leaf, path[j])] == nodes[i + j] {
      assert nodes[i + j] in nodes;
    }
    assert PathToRoot(t, u, leaf, path);
  }

  lemma StoringKeepsRooted(t: Tables, u: User, ps: seq<Pedigree>)
    requires ChainsRooted(t) && forall p :: p in ps && p.ancestors != [] ==> RootedList(p.ancestors)
    ensures ChainsRooted(StoreChains(t, u, ps))
  {
    var live := Storable(t, u, ps);
    var rows := ChainRows(live);
    if DistinctRows(rows) {
      var t1 := DeleteChains(t, u, LeafIds(live));
      var t2 := InsertChains(t1, u, rows);
      DroppingKeepsRooted(t, t1);
      InsertChainsOnlyAdds(t1, u, rows);
      InsertChainsStores(t1, u, rows);
      StorableFrom(t, u, ps);
      forall c | c in t2.chains ensures ReachesRoot(t2, c.user, c.leaf, c.node) {
        if r :| r in rows && c == ChainKeyOf(u, r) {
          StoredRowReaches(t2, u, live, r);
        } else {
          RowsBelongToLive(live);
          SameRowsReachRoot(t1, t2, c);
        }
      }
    }
  }

  lemma RowsBelongToLive(live: seq<Pedigree>)
    ensures forall r :: r in ChainRows(live) ==> r.leaf in LeafIds(live)
  {
    forall r | r in ChainRows(live) ensures r.leaf in LeafIds(live) {
      ChainRowOrigin(live, r);
    }
  }

  lemma StoredRowReaches(t2: Tables, u: User, live: seq<Pedigree>, r: ChainRow)
    requires r in ChainRows(live) && forall p :: p in live ==> RootedList(p.ancestors)
    requires forall s :: s in ChainRows(live) ==> ChainKeyOf(u, s) in t2.chains && t2.chains[ChainKeyOf(u, s)] == s.node
    ensures ReachesRoot(t2, u, r.leaf, r.node.id)
  {
    ChainRowOrigin(live, r);
    var p :| p in live && p.leaf.id == r.leaf && r.node in p.ancestors;
    forall n | n in p.ancestors
      ensures ChainKey(u, r.leaf, n.id) in t2.chains && t2.chains[ChainKey(u, r.leaf, n.id)] == n
    {
      ChainRowOrigin(live, ChainRow(r.leaf, n));
      assert ChainKeyOf(u, ChainRow(r.leaf, n)) in t2.chains;
    }
    var i :| 0 <= i < |p.ancestors| && p.ancestors[i] == r.node;
    TailIsPath(t2, u, r.leaf, p.ancestors, i);
  }

  // ----- runs ----------------------------------------------------------------------------------------

  lemma StepKeepsRooted(fk: bool, t: Tables, op: Op)
    requires ChainsRooted(t) && StoresRooted(op)
    ensures ChainsRooted(Apply(fk, t, op))
  {
    if op.StoreAncestors? {
      StoringKeepsRooted(t, op.user, op.pedigrees);
    } else {
      StepDropsWholeChains(fk, t, op);
      DroppingKeepsRooted(t, Apply(fk, t, op));
    }
  }

  /** The chains a step leaves, other than storing them: the old ones, or without some leaves' chains. */
  ghost predicate Thinned(t: Tables, u: User, t': Tables)
  {
    t'.chains == t.chains || exists ids :: t'.chains == ChainsWithout(t.chains, u, ids)
  }

  lemma ThinnedDropsWhole(t: Tables, u: User, t': Tables)
    requires Thinned(t, u, t')
    ensures DropsWholeChains(t, t')
  {}

  lemma RefreshedThins(c: Tables, u: User, nodes: seq<TreeNode>, missingNodes: seq<TreeNode>, start: Time,
                       at: Id -> Time, atMissing: Id -> Time)
    ensures Thinned(c, u, Refreshed(c, u, nodes, missingNodes, start, at, atMissing))
  {
    var t1 := DropOldMarkers(c, u, start - SPENT_MARKER_CLEANUP_THRESHOLD);
    var ids := StaleLeaves(t1, u, start) - (Ids(nodes) + Ids(missingNodes));
    assert WithoutStale(t1, u, start, Ids(nodes) + Ids(missingNodes)).chains == ChainsWithout(c.chains, u, ids);
  }

  lemma RefreshThins(fk: bool, t: Tables, op: Op)
    requires op.SetLeaves?
    ensures Thinned(t, op.user, Refresh(fk, t, op))
  {
    var c := CleanedUp(t, op.user, op.releaseAt, op.dropAt);
    match OutcomeOfRefresh(fk, t, op) {
      case Failed =>
      case Skipped =>
      case Proceeded =>
        RefreshedThins(c, op.user, op.nodes, op.missingNodes, op.start, op.at, op.atMissing);
    }
  }

  lemma FinalizeThins(t: Tables, op: Op)
    requires op.Finalize?
    ensures Thinned(t, op.user, Finalized(t, op))
  {
    var u := op.user;
    var held := if IsLive(t, u, op.rid) then HeldBy(t, u, op.rid) else {};
    assert Settled(t, u, op.rid, op.spentAt).chains == ChainsWithout(t.chains, u, held);
  }

  lemma UpdateThins(t: Tables, op: Op)
    requires op.Update?
    ensures Thinned(t, op.user, Updated(t, op))
  {
    var u, held := op.user, HeldBy(t, op.user, op.rid);
    assert Spend(t, u, op.rid, held, op.spentAt).chains == ChainsWithout(t.chains, u, held);
  }

  lemma CancelThins(t: Tables, op: Op)
    requires op.Cancel?
    ensures Thinned(t, op.user, Cancelled(t, op))
  {
    assert Cancelled(t, op).chains == ChainsWithout(t.chains, op.user, HeldBy(t, op.user, op.rid) - Ids(op.keep));
  }

  lemma ReserveThins(t: Tables, op: Op)
    requires op.TryReserve? || op.ReserveByIds? || op.AddLeaves?
    ensures Apply(false, t, op).chains == t.chains
  {}

  lemma StepDropsWholeChains(fk: bool, t: Tables, op: Op)
    requires !op.StoreAncestors?
    ensures DropsWholeChains(t, Apply(fk, t, op))
  {
    match op {
      case SetLeaves(_, _, _, _, _, _, _, _) => RefreshThins(fk, t, op);
      case Cancel(_, _, _, _) => CancelThins(t, op);
      case Finalize(_, _, _, _, _, _) => FinalizeThins(t, op);
      case Update(_, _, _, _, _, _, _) => UpdateThins(t, op);
      case AddLeaves(_, _, _) => ReserveThins(t, op);
      case TryReserve(_, _, _, _, _, _, _) => ReserveThins(t, op);
      case ReserveByIds(_, _, _, _, _) => ReserveThins(t, op);
    }
    ThinnedDropsWhole(t, op.user, Apply(fk, t, op));
  }

  lemma {:induction false} RunKeepsRooted(fk: bool, t: Tables, es: seq<Event>)
    requires ChainsRooted(t) && forall e :: e in es ==> StoresRooted(e.op)
    ensures ChainsRooted(Run(fk, t, es))
    decreases es
  {
    if es != [] {
      StepKeepsRooted(fk, t, es[0].op);
      RunKeepsRooted(fk, Apply(fk, t, es[0].op), es[1..]);
    }
  }

  /** After any run that stores only rooted chains, a pooled leaf is not reported as missing its
      chain exactly when it is a root itself or its own rows lead from its current parent to a
      root, however it was reparented, refreshed or reserved on the way. */
  lemma NotMissingIffExitable(fk: bool, t: Tables, clock: Time, es: seq<Event>, k: Key)
    requires Inv(t, clock) && ChainsRooted(t) && ValidRun(fk, t, clock, es) && LinkedRun(fk, t, es)
    requires forall e :: e in es ==> StoresRooted(e.op)
    requires k in Run(fk, t, es).leaves
    ensures var t' := Run(fk, t, es);
      var parent := t'.leaves[k].data.parent;
      k.id !in MissingChains(t', k.user) <==> (parent.None? || ReachesRoot(t', k.user, k.id, parent.value))
  {
    RunKeepsInv(fk, t, clock, es);
    RunKeepsRooted(fk, t, es);
    var t' := Run(fk, t, es);
    assert LeafOk(t', EndOf(clock, es), k);
    NotMissingIff(t', k);
  }

  lemma NotMissingIff(t: Tables, k: Key)
    requires ChainsRooted(t) && k in t.leaves && RowAgrees(k.id, t.leaves[k])
    ensures var parent := t.leaves[k].data.parent;
      k.id !in MissingChains(t, k.user) <==> (parent.None? || ReachesRoot(t, k.user, k.id, parent.value))
  {
    var parent := t.leaves[k].data.parent;
    assert k.id in MissingChains(t, k.user) <==> parent.Some? && ChainKey(k.user, k.id, parent.value) !in t.chains by {
      if k.id in MissingChains(t, k.user) {
        var j :| j in t.leaves && j.user == k.user && j.id == k.id && t.leaves[j].parent.Some?
          && ChainKey(k.user, j.id, t.leaves[j].parent.value) !in t.chains;
        assert j == k;
      }
    }
  }
}

/** A reservation from the attempt that opens it: it holds exactly what it took until five minutes
    later, and a cleanup after that gives the leaves back. */
module ReservationLifetime {
  import opened Base
  import opened TreeTables
  import opened LeafSelection
  import opened TreeOps
  import opened TreeInvariants
  import opened TreeAllocation
  import opened TreeConservation

  /** An attempt that takes leaves opens a reservation of its purpose and time over exactly them. */
  lemma Opened(fk: bool, t: Tables, clock: Time, op: Op)
    requires Inv(t, clock) && (op.TryReserve? || op.ReserveByIds?) && Enabled(t, op) && Taken(t, op).Some?
    ensures var t', ids := Apply(fk, t, op), Ids(Taken(t, op).value);
      && HeldBy(t', op.user, op.rid) == ids && IsLive(t', op.user, op.rid)
      && t'.reservations[Key(op.user, op.rid)].purpose == op.purpose
      && t'.reservations[Key(op.user, op.rid)].createdAt == op.now
      && forall id :: id in ids ==> Key(op.user, id) in t.leaves && t.leaves[Key(op.user, id)].reservation.None?
  {
    var nodes := Taken(t, op).value;
    TakenAreEligible(t, op, clock);
    var pending := TakingOpens(fk, t, op);
    forall id | id in Ids(nodes) ensures Key(op.user, id) in EligibleKeys(t, op.user) {
      var n :| n in nodes && n.id == id;
    }
    HeldIsGiven(t, op.user, op.rid, Ids(nodes), op.purpose, pending, op.now);
  }

  /** An attempt that takes nothing changes nothing. */
  lemma NothingOpened(fk: bool, t: Tables, op: Op)
    requires (op.TryReserve? || op.ReserveByIds?) && Enabled(t, op) && Taken(t, op).None?
    ensures Apply(fk, t, op) == t
  {}

  /** By ids, an attempt takes all the leaves named, and it takes them exactly when each is named
      once, and is pooled, available, held by every operator and unreserved. */
  lemma TakenByIdsIff(t: Tables, clock: Time, op: Op)
    requires Inv(t, clock) && op.ReserveByIds?
    ensures Taken(t, op).Some? <==>
      && op.ids != [] && (forall i, j :: 0 <= i < j < |op.ids| ==> op.ids[i] != op.ids[j])
      && forall id :: id in op.ids ==>
           var k := Key(op.user, id);
           && k in t.leaves && t.leaves[k].status == Available && !t.leaves[k].missing
           && t.leaves[k].reservation.None?
    ensures Taken(t, op).Some? ==> Ids(Taken(t, op).value) == set id | id in op.ids
  {
    if Taken(t, op).Some? {
      ResolvedIds(t, op.user, op.ids, clock);
    }
  }

  /** Over every run that leaves it alone and ends within five minutes of the attempt, the
      reservation is live and holds exactly the leaves taken. */
  lemma ReservationLasts(fk: bool, t: Tables, clock: Time, first: Event, es: seq<Event>)
    requires var op := first.op; (op.TryReserve? || op.ReserveByIds?) && Taken(t, op).Some?
    requires Inv(t, clock) && ValidRun(fk, t, clock, Prepend(first, es)) && LinkedRun(fk, t, Prepend(first, es))
    requires forall e :: e in es ==> LeavesAlone(e.op, first.op.user, first.op.rid, Ids(Taken(t, first.op).value))
    requires EndOf(first.until, es) <= first.op.now + FIVE_MINUTES
    ensures var t', u, rid := Run(fk, t, Prepend(first, es)), first.op.user, first.op.rid;
      && IsLive(t', u, rid) && t'.reservations[Key(u, rid)].createdAt == first.op.now
      && t'.reservations[Key(u, rid)].purpose == first.op.purpose
      && HeldBy(t', u, rid) == Ids(Taken(t, first.op).value)
  {
    var t1 := Apply(fk, t, first.op);
    Opened(fk, t, clock, first.op);
    InvLater(t, clock, first.from);
    StepKeepsInv(fk, t, first.op, first.from, first.until);
    RunKeepsHeld(fk, t1, first.until, es, first.op.user, first.op.rid);
  }

  /** A cleanup whose clock readings are more than five minutes after the attempt ends it: the
      reservation is gone and each leaf it held is there as before, but free. */
  lemma ReservationReleased(t: Tables, u: User, rid: ReservationId, releaseAt: Time, dropAt: Time)
    requires IsLive(t, u, rid) && releaseAt <= dropAt
    requires releaseAt > t.reservations[Key(u, rid)].createdAt + FIVE_MINUTES
    ensures var c := CleanedUp(t, u, releaseAt, dropAt);
      && !IsLive(c, u, rid) && HeldBy(c, u, rid) == {}
      && forall id :: id in HeldBy(t, u, rid) ==>
           Key(u, id) in c.leaves && c.leaves[Key(u, id)] == t.leaves[Key(u, id)].(reservation := None)
  {
    var c := CleanedUp(t, u, releaseAt, dropAt);
    forall id | id in HeldBy(t, u, rid)
      ensures Key(u, id) in c.leaves && c.leaves[Key(u, id)] == t.leaves[Key(u, id)].(reservation := None)
    {
      var k :| k in t.leaves && k.user == u && t.leaves[k].reservation == Some(rid) && k.id == id;
      assert k == Key(u, id);
    }
  }

  /** So the leaves an attempt took are free again after the first cleanup that reads the clock more
      than five minutes later. */
  lemma ReservationExpires(fk: bool, t: Tables, clock: Time, first: Event, es: seq<Event>, releaseAt: Time,
                           dropAt: Time)
    requires var op := first.op; (op.TryReserve? || op.ReserveByIds?) && Taken(t, op).Some?
    requires Inv(t, clock) && ValidRun(fk, t, clock, Prepend(first, es)) && LinkedRun(fk, t, Prepend(first, es))
    requires forall e :: e in es ==> LeavesAlone(e.op, first.op.user, first.op.rid, Ids(Taken(t, first.op).value))
    requires EndOf(first.until, es) <= first.op.now + FIVE_MINUTES < releaseAt <= dropAt
    ensures var u := first.op.user;
      var c := CleanedUp(Run(fk, t, Prepend(first, es)), u, releaseAt, dropAt);
      && !IsLive(c, u, first.op.rid)
      && forall id :: id in Ids(Taken(t, first.op).value) ==>
           Key(u, id) in c.leaves && c.leaves[Key(u, id)].reservation.None?
  {
    ReservationLasts(fk, t, clock, first, es);
    ReservationReleased(Run(fk, t, Prepend(first, es)), first.op.user, first.op.rid, releaseAt, dropAt);
  }
}

/** Each locked transaction, run alone to its commit, does exactly the operation it stands for,
    whatever the chunk sizes and whatever the clock read at each statement. */
module TreeProgramOps {
  import opened Base
  import opened TreeTables
  import opened LeafSelection
  import opened TreeOps
  import opened TreeInvariants
  import opened TreeProgram

  // ----- walking through a program -------------------------------------------------------------

  lemma AfterRead(fk: bool, u: User, z: Sizes, t: Tables, upcoming: Upcoming, inputs: seq<Input>, t': Tables)
    requires Finishes(fk, u, z, t, Point([], upcoming), inputs, t') && !upcoming.Commit?
    ensures inputs != []
    ensures var o := Read(u, z, t, upcoming, inputs[0]);
      o.Went? && Finishes(fk, u, z, o.t, o.at, inputs[1..], t')
  {}

  /** What follows one statement comes no earlier than it. */
  lemma WithinRest(inputs: seq<Input>, from: Time, until: Time, n: nat)
    requires Within(inputs, from, until) && n <= |inputs|
    ensures Within(inputs[n..], from, until)
    ensures n > 0 ==> Within(inputs[n..], inputs[n - 1].now, until)
    ensures inputs != [] ==> Within(inputs, inputs[0].now, inputs[|inputs| - 1].now)
  {}

  // ----- writes shared by several operations ----------------------------------------------------

  lemma SpendWritesSpend(fk: bool, u: User, t: Tables, rid: ReservationId, held: set<Id>, inputs: seq<Input>)
    requires |SpendWrites(rid, held)| <= |inputs|
    ensures WriteAll(fk, u, t, SpendWrites(rid, held), inputs) == Some(Spend(t, u, rid, held, inputs[0].now))
  {
    var ws := SpendWrites(rid, held);
    if held == {} {
      assert ws == [DeleteHeld(rid)];
      SpendNothing(t, u, inputs[0].now);
    } else {
      var t1 := MarkSpent(t, u, held, inputs[0].now);
      var t2 := DeleteChains(t1, u, held);
      assert ws == [Mark(held), DropChains(held), DeleteHeld(rid)];
      assert ws[1..] == [DropChains(held), DeleteHeld(rid)] && ws[1..][1..] == [DeleteHeld(rid)];
      assert HeldBy(t2, u, rid) == HeldBy(t, u, rid);
      OneWrite(fk, u, t2, DeleteHeld(rid), inputs[1..][1..]);
    }
  }

  lemma OneWrite(fk: bool, u: User, t: Tables, w: Write, inputs: seq<Input>)
    requires inputs != []
    ensures WriteAll(fk, u, t, [w], inputs) == Do(fk, u, t, w, inputs[0].now)
  {
    assert [w][1..] == [];
  }

  lemma SpendNothing(t: Tables, u: User, at: Time)
    ensures DeleteChains(MarkSpent(t, u, {}, at), u, {}) == t
  {
    assert MarkSpent(t, u, {}, at).spent == t.spent;
    DeleteNoChains(t, u);
  }

  /** One part of the writes after another. */
  lemma WriteParts(fk: bool, u: User, t: Tables, a: seq<Write>, b: seq<Write>, inputs: seq<Input>, t1: Tables,
                   t': Tables)
    requires |a + b| == |inputs| && WriteAll(fk, u, t, a + b, inputs) == Some(t')
    requires WriteAll(fk, u, t, a, inputs) == Some(t1)
    ensures |b| == |inputs[|a|..]| && WriteAll(fk, u, t1, b, inputs[|a|..]) == Some(t')
  {
    WriteAllSplit(fk, u, t, a, b, inputs);
  }

  // ----- finalize ------------------------------------------------------------------------------

  lemma FinalizeTail(fk: bool, u: User, z: Sizes, t1: Tables, isSwap: bool, nodes: seq<TreeNode>, inputs: seq<Input>,
                     from: Time, until: Time, t': Tables) returns (at: Id -> Time, swapAt: Time)
    requires var ws := Puts(nodes, z.leaves, false) + (if isSwap then [NoteSwap] else []);
      |ws| == |inputs| && WriteAll(fk, u, t1, ws, inputs) == Some(t')
    requires Within(inputs, from, until) && from <= until
    ensures from <= swapAt <= until && forall id :: from <= at(id) <= swapAt
    ensures var t2 := UpsertLeaves(t1, u, nodes, false, at);
      t' == t2.(swaps := if isSwap then t2.swaps[u := swapAt] else t2.swaps)
  {
    var puts := Puts(nodes, z.leaves, false);
    swapAt := if isSwap then inputs[|inputs| - 1].now else until;
    at := PutsUpsert(fk, u, t1, nodes, z.leaves, false, inputs, from, swapAt);
    var t2 := UpsertLeaves(t1, u, nodes, false, at);
    if isSwap {
      WriteParts(fk, u, t1, puts, [NoteSwap], inputs, t2, t');
      OneWrite(fk, u, t2, NoteSwap, inputs[|puts|..]);
    } else {
      assert puts + [] == puts;
    }
  }

  lemma FinalizeWritesDo(fk: bool, u: User, z: Sizes, t: Tables, rid: ReservationId, held: set<Id>, isSwap: bool,
                         newLeaves: Option<seq<TreeNode>>, inputs: seq<Input>, from: Time, until: Time, t': Tables)
    returns (spentAt: Time, at: Id -> Time, swapAt: Time)
    requires var ws := FinalizeWrites(z, rid, held, isSwap, newLeaves);
      |ws| == |inputs| && WriteAll(fk, u, t, ws, inputs) == Some(t')
    requires Within(inputs, from, until) && from <= until
    ensures from <= spentAt <= swapAt <= until && forall id :: spentAt <= at(id) <= swapAt
    ensures var t1 := DeleteReservation(Spend(t, u, rid, held, spentAt), u, rid);
      if newLeaves.None? then t' == t1
      else (var t2 := UpsertLeaves(t1, u, newLeaves.value, false, at);
            t' == t2.(swaps := if isSwap then t2.swaps[u := swapAt] else t2.swaps))
  {
    var spend := SpendWrites(rid, held);
    var tail := if newLeaves.None? then [] else
      Puts(newLeaves.value, z.leaves, false) + (if isSwap then [NoteSwap] else []);
    spentAt := inputs[0].now;
    var t1 := Spend(t, u, rid, held, spentAt);
    SpendWritesSpend(fk, u, t, rid, held, inputs);
    assert FinalizeWrites(z, rid, held, isSwap, newLeaves) == spend + ([DeleteRid(rid)] + tail);
    WriteParts(fk, u, t, spend, [DeleteRid(rid)] + tail, inputs, t1, t');
    var rest := inputs[|spend|..];
    OneWrite(fk, u, t1, DeleteRid(rid), rest);
    WriteParts(fk, u, t1, [DeleteRid(rid)], tail, rest, DeleteReservation(t1, u, rid), t');
    WithinRest(inputs, from, until, 0);
    WithinRest(inputs, spentAt, until, |spend|);
    WithinRest(rest, spentAt, until, 1);
    if newLeaves.None? {
      at, swapAt := (id: Id) => spentAt, until;
    } else {
      at, swapAt := FinalizeTail(fk, u, z, DeleteReservation(t1, u, rid), isSwap, newLeaves.value, rest[1..],
        spentAt, until, t');
    }
  }

  lemma FinalizeReads(fk: bool, u: User, z: Sizes, t: Tables, rid: ReservationId, newLeaves: Option<seq<TreeNode>>,
                      inputs: seq<Input>, from: Time, until: Time, t': Tables) returns (rest: seq<Input>)
    requires Finishes(fk, u, z, t, Point([], ReadPurpose(rid, newLeaves)), inputs, t') && Within(inputs, from, until)
    ensures var held := if IsLive(t, u, rid) then HeldBy(t, u, rid) else {};
      var ws := FinalizeWrites(z, rid, held, IsSwap(t, u, rid), newLeaves);
      |ws| == |rest| && WriteAll(fk, u, t, ws, rest) == Some(t')
    ensures Within(rest, from, until)
  {
    AfterRead(fk, u, z, t, ReadPurpose(rid, newLeaves), inputs, t');
    WithinRest(inputs, from, until, 1);
    rest := inputs[1..];
    if IsLive(t, u, rid) {
      AfterRead(fk, u, z, t, ReadReserved(rid, newLeaves, IsSwap(t, u, rid)), rest, t');
      WithinRest(rest, from, until, 1);
      rest := rest[1..];
    }
    var held := if IsLive(t, u, rid) then HeldBy(t, u, rid) else {};
    LastWrites(fk, u, z, t, FinalizeWrites(z, rid, held, IsSwap(t, u, rid), newLeaves), rest, t');
  }

  lemma FinalizeDoes(fk: bool, u: User, z: Sizes, t: Tables, rid: ReservationId, newLeaves: Option<seq<TreeNode>>,
                     inputs: seq<Input>, from: Time, until: Time, t': Tables) returns (op: Op)
    requires Finishes(fk, u, z, t, Point([], ReadPurpose(rid, newLeaves)), inputs, t')
    requires Within(inputs, from, until) && from <= until
    ensures Asks(op, u, CallFinalize(rid, newLeaves)) && TimesIn(op, from, until) && Finalized(t, op) == t'
  {
    var rest := FinalizeReads(fk, u, z, t, rid, newLeaves, inputs, from, until, t');
    var held := if IsLive(t, u, rid) then HeldBy(t, u, rid) else {};
    var spentAt, at, swapAt :=
      FinalizeWritesDo(fk, u, z, t, rid, held, IsSwap(t, u, rid), newLeaves, rest, from, until, t');
    op := Finalize(u, rid, newLeaves, spentAt, at, swapAt);
  }

  // ----- cancel --------------------------------------------------------------------------------

  lemma CancelDoes(fk: bool, u: User, z: Sizes, t: Tables, rid: ReservationId, keep: seq<TreeNode>,
                   inputs: seq<Input>, from: Time, until: Time, t': Tables) returns (op: Op)
    requires Finishes(fk, u, z, t, Point([], ReadPrior(rid, keep)), inputs, t')
    requires Within(inputs, from, until) && from <= until
    ensures Asks(op, u, CallCancel(rid, keep)) && TimesIn(op, from, until) && Cancelled(t, op) == t'
  {
    AfterRead(fk, u, z, t, ReadPrior(rid, keep), inputs, t');
    WithinRest(inputs, from, until, 1);
    var held, rest := HeldBy(t, u, rid), inputs[1..];
    LastWrites(fk, u, z, t, CancelWrites(z, rid, held, keep), rest, t');
    op := CancelWritesDo(fk, u, z, t, rid, keep, rest, from, until, t');
  }

  lemma CancelWritesDo(fk: bool, u: User, z: Sizes, t: Tables, rid: ReservationId, keep: seq<TreeNode>,
                       inputs: seq<Input>, from: Time, until: Time, t': Tables) returns (op: Op)
    requires var ws := CancelWrites(z, rid, HeldBy(t, u, rid), keep);
      |ws| == |inputs| && WriteAll(fk, u, t, ws, inputs) == Some(t')
    requires Within(inputs, from, until) && from <= until
    ensures Asks(op, u, CallCancel(rid, keep)) && TimesIn(op, from, until) && Cancelled(t, op) == t'
  {
    var held := HeldBy(t, u, rid);
    var drop := if held - Ids(keep) == {} then [] else [DropChains(held - Ids(keep))];
    var puts := Puts(keep, z.leaves, false);
    var t1 := DeleteChains(t, u, held - Ids(keep));
    if held - Ids(keep) == {} {
      DeleteNoChains(t, u);
    } else {
      OneWrite(fk, u, t, DropChains(held - Ids(keep)), inputs);
    }
    assert CancelWrites(z, rid, held, keep) == drop + ([DeleteHeld(rid), DeleteRid(rid)] + puts);
    WriteParts(fk, u, t, drop, [DeleteHeld(rid), DeleteRid(rid)] + puts, inputs, t1, t');
    var rest := inputs[|drop|..];
    var t2 := DeleteReservation(DeleteLeaves(t1, Keys(u, held)), u, rid);
    DeleteBoth(fk, u, t1, rid, held, rest);
    WriteParts(fk, u, t1, [DeleteHeld(rid), DeleteRid(rid)], puts, rest, t2, t');
    WithinRest(inputs, from, until, |drop|);
    WithinRest(rest, from, until, 2);
    var at := PutsUpsert(fk, u, t2, keep, z.leaves, false, rest[2..], from, until);
    op := Cancel(u, rid, keep, at);
  }

  lemma DeleteBoth(fk: bool, u: User, t: Tables, rid: ReservationId, held: set<Id>, inputs: seq<Input>)
    requires |inputs| >= 2 && held == HeldBy(t, u, rid)
    ensures WriteAll(fk, u, t, [DeleteHeld(rid), DeleteRid(rid)], inputs)
      == Some(DeleteReservation(DeleteLeaves(t, Keys(u, held)), u, rid))
  {
    assert [DeleteHeld(rid), DeleteRid(rid)][1..] == [DeleteRid(rid)];
    OneWrite(fk, u, DeleteLeaves(t, Keys(u, held)), DeleteRid(rid), inputs[1..]);
  }

  // ----- update --------------------------------------------------------------------------------

  lemma UpdateTail(fk: bool, u: User, t: Tables, rid: ReservationId, reserved: seq<TreeNode>, inputs: seq<Input>,
                   t': Tables)
    requires IsLive(t, u, rid)
    requires var ws := (if reserved == [] then [] else [Assign(Ids(reserved), rid)]) + [ClearPending(rid)];
      |ws| == |inputs| && WriteAll(fk, u, t, ws, inputs) == Some(t')
    ensures var t1 := SetReservation(t, u, Ids(reserved), rid);
      t' == t1.(reservations := t1.reservations[Key(u, rid) := t1.reservations[Key(u, rid)].(pending := 0)])
  {
    if reserved == [] {
      AssignNothing(t, u, rid);
      assert [] + [ClearPending(rid)] == [ClearPending(rid)];
      OneWrite(fk, u, t, ClearPending(rid), inputs);
    } else {
      var t1 := SetReservation(t, u, Ids(reserved), rid);
      OneWrite(fk, u, t, Assign(Ids(reserved), rid), inputs);
      WriteParts(fk, u, t, [Assign(Ids(reserved), rid)], [ClearPending(rid)], inputs, t1, t');
      OneWrite(fk, u, t1, ClearPending(rid), inputs[1..]);
    }
  }

  lemma AssignNothing(t: Tables, u: User, rid: ReservationId)
    ensures SetReservation(t, u, Ids([]), rid) == t
  {
    assert SetReservation(t, u, Ids([]), rid).leaves == t.leaves;
  }

  lemma UpdateWritesDo(fk: bool, u: User, z: Sizes, t: Tables, rid: ReservationId, held: set<Id>,
                       reserved: seq<TreeNode>,
                       change: seq<TreeNode>, inputs: seq<Input>, from: Time, until: Time, t': Tables)
    returns (spentAt: Time, atChange: Id -> Time, atReserved: Id -> Time)
    requires IsLive(t, u, rid)
    requires var ws := UpdateWrites(z, rid, held, reserved, change);
      |ws| == |inputs| && WriteAll(fk, u, t, ws, inputs) == Some(t')
    requires Within(inputs, from, until) && from <= until
    ensures from <= spentAt <= until
    ensures forall id :: spentAt <= atChange(id) <= until
    ensures forall id :: spentAt <= atReserved(id) <= until
    ensures var t1 := UpsertLeaves(Spend(t, u, rid, held, spentAt), u, change, false, atChange);
      var t2 := SetReservation(UpsertLeaves(t1, u, reserved, false, atReserved), u, Ids(reserved), rid);
      t' == t2.(reservations := t2.reservations[Key(u, rid) := t2.reservations[Key(u, rid)].(pending := 0)])
  {
    var spend, tail := SpendWrites(rid, held), ReplaceWrites(z, rid, reserved, change);
    assert UpdateWrites(z, rid, held, reserved, change) == spend + tail;
    spentAt := inputs[0].now;
    var t1 := Spend(t, u, rid, held, spentAt);
    SpendWritesSpend(fk, u, t, rid, held, inputs);
    WriteParts(fk, u, t, spend, tail, inputs, t1, t');
    WithinRest(inputs, from, until, 0);
    WithinRest(inputs, spentAt, until, |spend|);
    atChange, atReserved := ReplaceWritesDo(fk, u, z, t1, rid, reserved, change, inputs[|spend|..], spentAt, until, t');
  }

  function ReplaceWrites(z: Sizes, rid: ReservationId, reserved: seq<TreeNode>, change: seq<TreeNode>): seq<Write>
  {
    Puts(change, z.leaves, false)
    + (Puts(reserved, z.leaves, false) +
      ((if reserved == [] then [] else [Assign(Ids(reserved), rid)]) + [ClearPending(rid)]))
  }

  lemma ReplaceWritesDo(fk: bool, u: User, z: Sizes, t1: Tables, rid: ReservationId, reserved: seq<TreeNode>,
                        change: seq<TreeNode>, inputs: seq<Input>, from: Time, until: Time, t': Tables)
    returns (atChange: Id -> Time, atReserved: Id -> Time)
    requires IsLive(t1, u, rid)
    requires |ReplaceWrites(z, rid, reserved, change)| == |inputs|
    requires WriteAll(fk, u, t1, ReplaceWrites(z, rid, reserved, change), inputs) == Some(t')
    requires Within(inputs, from, until) && from <= until
    ensures forall id :: from <= atChange(id) <= until
    ensures forall id :: from <= atReserved(id) <= until
    ensures var t2 := UpsertLeaves(t1, u, change, false, atChange);
      var t3 := SetReservation(UpsertLeaves(t2, u, reserved, false, atReserved), u, Ids(reserved), rid);
      t' == t3.(reservations := t3.reservations[Key(u, rid) := t3.reservations[Key(u, rid)].(pending := 0)])
  {
    var puts, puts' := Puts(change, z.leaves, false), Puts(reserved, z.leaves, false);
    var tail := (if reserved == [] then [] else [Assign(Ids(reserved), rid)]) + [ClearPending(rid)];
    atChange := PutsUpsert(fk, u, t1, change, z.leaves, false, inputs, from, until);
    var t2 := UpsertLeaves(t1, u, change, false, atChange);
    WriteParts(fk, u, t1, puts, puts' + tail, inputs, t2, t');
    var rest := inputs[|puts|..];
    WithinRest(inputs, from, until, |puts|);
    atReserved := PutsUpsert(fk, u, t2, reserved, z.leaves, false, rest, from, until);
    var t3 := UpsertLeaves(t2, u, reserved, false, atReserved);
    WriteParts(fk, u, t2, puts', tail, rest, t3, t');
    UpdateTail(fk, u, t3, rid, reserved, rest[|puts'|..], t');
  }

  lemma UpdateDoes(fk: bool, u: User, z: Sizes, t: Tables, rid: ReservationId, reserved: seq<TreeNode>,
                   change: seq<TreeNode>, inputs: seq<Input>, from: Time, until: Time, t': Tables) returns (op: Op)
    requires Finishes(fk, u, z, t, Point([], CheckExists(rid, reserved, change)), inputs, t')
    requires Within(inputs, from, until) && from <= until
    ensures Asks(op, u, CallUpdate(rid, reserved, change)) && TimesIn(op, from, until) && Updated(t, op) == t'
  {
    AfterRead(fk, u, z, t, CheckExists(rid, reserved, change), inputs, t');
    AfterRead(fk, u, z, t, ReadOld(rid, reserved, change), inputs[1..], t');
    var rest, held := inputs[1..][1..], HeldBy(t, u, rid);
    LastWrites(fk, u, z, t, UpdateWrites(z, rid, held, reserved, change), rest, t');
    assert rest == inputs[2..];
    WithinRest(inputs, from, until, 2);
    var spentAt, atChange, atReserved :=
      UpdateWritesDo(fk, u, z, t, rid, held, reserved, change, rest, from, until, t');
    op := Update(u, rid, reserved, change, spentAt, atChange, atReserved);
  }

  // ----- reservations ----------------------------------------------------------------------------

  lemma ReserveWritesDo(fk: bool, u: User, t: Tables, rid: ReservationId, purpose: Purpose, pending: U64,
                        nodes: seq<TreeNode>, inputs: seq<Input>, t': Tables)
    requires |ReserveWrites(rid, purpose, pending, nodes)| == |inputs|
    requires WriteAll(fk, u, t, ReserveWrites(rid, purpose, pending, nodes), inputs) == Some(t')
    ensures !IsLive(t, u, rid) && t' == CreateReservation(t, u, rid, Ids(nodes), purpose, pending, inputs[0].now)
  {
    var open := Open(rid, purpose, pending);
    var tail := if nodes == [] then [] else [Assign(Ids(nodes), rid)];
    OneWrite(fk, u, t, open, inputs);
    WriteAllSplit(fk, u, t, [open], tail, inputs);
    assert !IsLive(t, u, rid);
    var t1 := t.(reservations := t.reservations[Key(u, rid) := Reservation(purpose, AsI64(pending), inputs[0].now)]);
    if nodes == [] {
      AssignNothing(t1, u, rid);
    } else {
      OneWrite(fk, u, t1, Assign(Ids(nodes), rid), inputs[1..]);
    }
  }

  /** Reserving the ids a decision named. */
  lemma ReadFullDoes(fk: bool, u: User, z: Sizes, t: Tables, upcoming: Upcoming, inputs: seq<Input>, from: Time,
                     until: Time, t': Tables)
    returns (now: Time)
    requires upcoming.ReadFull? && Finishes(fk, u, z, t, Point([], upcoming), inputs, t') && Within(inputs, from, until)
    ensures from <= now <= until && !IsLive(t, u, upcoming.rid)
    ensures ResolveFull(t, u, upcoming.ids).Some?
    ensures var nodes := ResolveFull(t, u, upcoming.ids).value;
      t' == CreateReservation(t, u, upcoming.rid, Ids(nodes), upcoming.purpose,
                              PendingChange(nodes, TotalSats(upcoming.target), upcoming.minimum), now)
  {
    AfterRead(fk, u, z, t, upcoming, inputs, t');
    var nodes := ResolveFull(t, u, upcoming.ids).value;
    var pending := PendingChange(nodes, TotalSats(upcoming.target), upcoming.minimum);
    LastWrites(fk, u, z, t, ReserveWrites(upcoming.rid, upcoming.purpose, pending, nodes), inputs[1..], t');
    ReserveWritesDo(fk, u, t, upcoming.rid, upcoming.purpose, pending, nodes, inputs[1..], t');
    now := inputs[1..][0].now;
  }

  lemma ReserveByIdsDoes(fk: bool, u: User, z: Sizes, t: Tables, rid: ReservationId, ids: seq<Id>, purpose: Purpose,
                         inputs: seq<Input>, from: Time, until: Time, t': Tables) returns (op: Op)
    requires Finishes(fk, u, z, t, Point([], CheckIds(rid, purpose, ids)), inputs, t')
    requires Within(inputs, from, until)
    ensures Asks(op, u, CallReserveByIds(rid, ids, purpose)) && TimesIn(op, from, until) && ReservedByIds(t, op) == t'
  {
    AfterRead(fk, u, z, t, CheckIds(rid, purpose, ids), inputs, t');
    WithinRest(inputs, from, until, 1);
    var now := ReadFullDoes(fk, u, z, t, ReadFull(rid, purpose, None, false, ids), inputs[1..], from, until, t');
    op := ReserveByIds(u, rid, ids, purpose, now);
  }

  /** The three reads of a reservation, up to its decision. */
  lemma ReadsDecide(fk: bool, u: User, z: Sizes, t: Tables, call: Call, inputs: seq<Input>, t': Tables)
    returns (rows: seq<SlimLeaf>)
    requires call.CallTryReserve? && Finishes(fk, u, z, t, Point([], ReadTotal(call)), inputs, t')
    ensures |inputs| >= 3 && AnswersSlim(t, u, SlimBound(call.target), rows)
    ensures var o := Read(u, z, t, ReadPending(call, EligibleTotal(t, u), rows), inputs[2]);
      o.Went? && Finishes(fk, u, z, t, o.at, inputs[3..], t')
  {
    var available := EligibleTotal(t, u);
    AfterRead(fk, u, z, t, ReadTotal(call), inputs, t');
    AfterRead(fk, u, z, t, ReadSlim(call, available), inputs[1..], t');
    rows := inputs[1].rows;
    AfterRead(fk, u, z, t, ReadPending(call, available, rows), inputs[1..][1..], t');
    assert inputs[1..][1..][1..] == inputs[3..];
  }

  lemma TryReserveDoes(fk: bool, u: User, z: Sizes, t: Tables, call: Call, inputs: seq<Input>, from: Time, until: Time,
                       t': Tables)
    returns (op: Op)
    requires call.CallTryReserve? && Finishes(fk, u, z, t, Point([], ReadTotal(call)), inputs, t')
    requires Within(inputs, from, until) && from <= until
    ensures Asks(op, u, call) && TimesIn(op, from, until) && TryReserved(t, op) == t'
    ensures AnswersSlim(t, u, SlimBound(call.target), op.rows)
  {
    var rows := ReadsDecide(fk, u, z, t, call, inputs, t');
    var now := DecisionDoes(fk, u, z, t, call, rows, inputs, from, until, t');
    op := TryReserve(u, call.rid, call.target, call.exactOnly, call.purpose, rows, now);
  }

  lemma DecisionDoes(fk: bool, u: User, z: Sizes, t: Tables, call: Call, rows: seq<SlimLeaf>, inputs: seq<Input>,
                     from: Time, until: Time, t': Tables) returns (now: Time)
    requires call.CallTryReserve? && |inputs| >= 3 && Within(inputs, from, until) && from <= until
    requires var o := Read(u, z, t, ReadPending(call, EligibleTotal(t, u), rows), inputs[2]);
      o.Went? && Finishes(fk, u, z, t, o.at, inputs[3..], t')
    ensures from <= now <= until
    ensures var d := Decide(EligibleTotal(t, u), PendingTotal(t, u), rows, call.target, call.exactOnly);
      if d.Reserve?
      then !IsLive(t, u, call.rid) && ResolveFull(t, u, d.ids).Some?
        && (var nodes := ResolveFull(t, u, d.ids).value;
            t' == CreateReservation(t, u, call.rid, Ids(nodes), call.purpose,
                                    PendingChange(nodes, TotalSats(call.target), d.minimum), now))
      else t' == t
  {
    var d := Decide(EligibleTotal(t, u), PendingTotal(t, u), rows, call.target, call.exactOnly);
    if d.Reserve? {
      WithinRest(inputs, from, until, 3);
      now := ReadFullDoes(fk, u, z, t, ReadFull(call.rid, call.purpose, call.target, d.minimum, d.ids), inputs[3..],
        from, until, t');
    } else {
      now := from;
      OnlyCommit(fk, u, z, t, inputs[3..], t');
    }
  }

  // ----- exit chains -----------------------------------------------------------------------------

  lemma ReadExistingStep(fk: bool, u: User, z: Sizes, t: Tables, rest: seq<Pedigree>, live: seq<Pedigree>,
                         inputs: seq<Input>, t': Tables)
    requires Finishes(fk, u, z, t, Point([], ReadExisting(rest, live)), inputs, t')
    ensures inputs != []
    ensures var n := Cut(rest, z.ids);
      var live' := live + Storable(t, u, rest[..n]);
      Finishes(fk, u, z, t, if rest[n..] != [] then Point([], ReadExisting(rest[n..], live'))
        else Point(ChainWrites(z, live'), Commit),
               inputs[1..], t')
  {
    AfterRead(fk, u, z, t, ReadExisting(rest, live), inputs, t');
  }

  lemma StorableSoFar(t: Tables, u: User, rest: seq<Pedigree>, live: seq<Pedigree>, n: nat)
    requires n <= |rest|
    ensures live + Storable(t, u, rest[..n]) + Storable(t, u, rest[n..]) == live + Storable(t, u, rest)
  {
    assert rest[..n] + rest[n..] == rest;
    StorableConcat(t, u, rest[..n], rest[n..]);
  }

  lemma {:induction false} ReadExistingDoes(fk: bool, u: User, z: Sizes, t: Tables, rest: seq<Pedigree>,
                                            live: seq<Pedigree>,
                                            inputs: seq<Input>, t': Tables) returns (last: seq<Input>)
    requires Finishes(fk, u, z, t, Point([], ReadExisting(rest, live)), inputs, t')
    ensures var ws := ChainWrites(z, live + Storable(t, u, rest));
      |ws| == |last| && WriteAll(fk, u, t, ws, last) == Some(t')
    decreases rest
  {
    var n := Cut(rest, z.ids);
    var live' := live + Storable(t, u, rest[..n]);
    ReadExistingStep(fk, u, z, t, rest, live, inputs, t');
    StorableSoFar(t, u, rest, live, n);
    if rest[n..] != [] {
      last := ReadExistingDoes(fk, u, z, t, rest[n..], live', inputs[1..], t');
    } else {
      last := inputs[1..];
      LastWrites(fk, u, z, t, ChainWrites(z, live'), last, t');
      assert live' == live + Storable(t, u, rest);
    }
  }

  lemma StoreAncestorsDoes(fk: bool, u: User, z: Sizes, t: Tables, ps: seq<Pedigree>, inputs: seq<Input>, t': Tables)
    requires Finishes(fk, u, z, t, Point([], ReadExisting(ps, [])), inputs, t')
    ensures StoreChains(t, u, ps) == t'
  {
    var last := ReadExistingDoes(fk, u, z, t, ps, [], inputs, t');
    var live := Storable(t, u, ps);
    assert [] + live == live;
    var rows := ChainRows(live);
    if live == [] {
      assert LeafIds(live) == {};
      DeleteNoChains(t, u);
    } else {
      var t1 := DeleteChains(t, u, LeafIds(live));
      OneWrite(fk, u, t, DropChains(LeafIds(live)), last);
      WriteParts(fk, u, t, [DropChains(LeafIds(live))], RowInserts(rows, z.rows), last, t1, t');
      RowInsertsInsert(fk, u, t1, rows, z.rows, last[1..]);
    }
  }

  // ----- set_leaves ------------------------------------------------------------------------------

  lemma RefreshWritesDo(fk: bool, u: User, z: Sizes, t: Tables, nodes: seq<TreeNode>, missingNodes: seq<TreeNode>,
                        start: Time,
                        spentIds: set<Id>, stale: seq<Id>, inputs: seq<Input>, from: Time, until: Time, t': Tables)
    returns (at: Id -> Time, atMissing: Id -> Time)
    requires IdSet(stale) == StaleLeaves(t, u, start)
    requires var ws := RefreshWrites(z, nodes, missingNodes, start, spentIds, stale);
      |ws| == |inputs| && WriteAll(fk, u, t, ws, inputs) == Some(t')
    requires Within(inputs, from, until) && from <= until
    ensures forall id :: from <= at(id) <= until
    ensures forall id :: from <= atMissing(id) <= until
    ensures t' == PutReported(WithoutStale(t, u, start, Ids(nodes) + Ids(missingNodes)), u,
                              Without(nodes, spentIds), Without(missingNodes, spentIds), at, atMissing)
  {
    var reported, kept, keptMissing :=
      Ids(nodes) + Ids(missingNodes), Without(nodes, spentIds), Without(missingNodes, spentIds);
    var drops, puts, puts' :=
      ChainDrops(Leaving(stale, reported), z.ids), Puts(kept, z.leaves, false), Puts(keptMissing, z.leaves, true);
    assert RefreshWrites(z, nodes, missingNodes, start, spentIds, stale) ==
      [DeleteStale(start)] + (drops + (puts + puts'));
    var t1 := DeleteLeaves(t, Keys(u, IdSet(stale)));
    OneWrite(fk, u, t, DeleteStale(start), inputs);
    WriteParts(fk, u, t, [DeleteStale(start)], drops + (puts + puts'), inputs, t1, t');
    WithinRest(inputs, from, until, 1);
    var rest := inputs[1..];
    ChainDropsDelete(fk, u, t1, Leaving(stale, reported), z.ids, rest);
    LeavingIds(stale, reported);
    var t2 := DeleteChains(t1, u, IdSet(stale) - reported);
    WriteParts(fk, u, t1, drops, puts + puts', rest, t2, t');
    WithinRest(rest, from, until, |drops|);
    at, atMissing := PutBothDo(fk, u, z, t2, kept, keptMissing, rest[|drops|..], from, until, t');
  }

  lemma PutBothDo(fk: bool, u: User, z: Sizes, t: Tables, kept: seq<TreeNode>, keptMissing: seq<TreeNode>,
                  inputs: seq<Input>,
                  from: Time, until: Time, t': Tables) returns (at: Id -> Time, atMissing: Id -> Time)
    requires var ws := Puts(kept, z.leaves, false) + Puts(keptMissing, z.leaves, true);
      |ws| == |inputs| && WriteAll(fk, u, t, ws, inputs) == Some(t')
    requires Within(inputs, from, until) && from <= until
    ensures forall id :: from <= at(id) <= until
    ensures forall id :: from <= atMissing(id) <= until
    ensures t' == PutReported(t, u, kept, keptMissing, at, atMissing)
  {
    var puts, puts' := Puts(kept, z.leaves, false), Puts(keptMissing, z.leaves, true);
    at := PutsUpsert(fk, u, t, kept, z.leaves, false, inputs, from, until);
    var t1 := UpsertLeaves(t, u, kept, false, at);
    WriteParts(fk, u, t, puts, puts', inputs, t1, t');
    WithinRest(inputs, from, until, |puts|);
    atMissing := PutsUpsert(fk, u, t1, keptMissing, z.leaves, true, inputs[|puts|..], from, until);
  }

  /** A refresh past its swap check. */
  lemma ProceedDoes(fk: bool, u: User, z: Sizes, t: Tables, nodes: seq<TreeNode>, missingNodes: seq<TreeNode>,
                    start: Time, inputs: seq<Input>, from: Time, until: Time, t': Tables) returns (at: Id -> Time,
                      atMissing: Id -> Time)
    requires Finishes(fk, u, z, t, Point([DropMarkers(start - SPENT_MARKER_CLEANUP_THRESHOLD)],
                                         ReadSpent(nodes, missingNodes, start)), inputs, t')
    requires Within(inputs, from, until) && from <= until
    ensures forall id :: from <= at(id) <= until
    ensures forall id :: from <= atMissing(id) <= until
    ensures t' == Refreshed(t, u, nodes, missingNodes, start, at, atMissing)
  {
    var w, upcoming := DropMarkers(start - SPENT_MARKER_CLEANUP_THRESHOLD), ReadSpent(nodes, missingNodes, start);
    WritesFirst(fk, u, z, t, Point([w], upcoming), inputs, t');
    OneWrite(fk, u, t, w, inputs);
    var t1 := DropOldMarkers(t, u, start - SPENT_MARKER_CLEANUP_THRESHOLD);
    AfterRead(fk, u, z, t1, upcoming, inputs[1..], t');
    var spentIds := RecentlySpent(t1, u, start);
    AfterRead(fk, u, z, t1, ReadStale(nodes, missingNodes, start, spentIds), inputs[1..][1..], t');
    var rest, stale := inputs[1..][1..][1..], inputs[1..][1..][0].ids;
    LastWrites(fk, u, z, t1, RefreshWrites(z, nodes, missingNodes, start, spentIds, stale), rest, t');
    assert rest == inputs[3..];
    WithinRest(inputs, from, until, 3);
    at, atMissing := RefreshWritesDo(fk, u, z, t1, nodes, missingNodes, start, spentIds, stale, rest, from, until, t');
  }

  lemma CleanupDoes(fk: bool, u: User, z: Sizes, t: Tables, upcoming: Upcoming, inputs: seq<Input>, t': Tables)
    requires Finishes(fk, u, z, t, Point([Release, DropReservations], upcoming), inputs, t')
    ensures |inputs| >= 2
    ensures var c := CleanedUp(t, u, inputs[0].now, inputs[1].now);
      (fk ==> NoDangling(c, u)) && Finishes(fk, u, z, c, Point([], upcoming), inputs[2..], t')
  {
    WritesFirst(fk, u, z, t, Point([Release, DropReservations], upcoming), inputs, t');
    assert [Release, DropReservations][1..] == [DropReservations];
    OneWrite(fk, u, ReleaseStale(t, u, inputs[0].now), DropReservations, inputs[1..]);
  }

  lemma CheckSwapDoes(fk: bool, u: User, z: Sizes, c: Tables, nodes: seq<TreeNode>, missingNodes: seq<TreeNode>,
                      start: Time, inputs: seq<Input>, from: Time, until: Time, t': Tables) returns (at: Id -> Time,
                        atMissing: Id -> Time)
    requires Finishes(fk, u, z, c, Point([], CheckSwap(nodes, missingNodes, start)), inputs, t')
    requires Within(inputs, from, until) && from <= until
    ensures forall id :: from <= at(id) <= until
    ensures forall id :: from <= atMissing(id) <= until
    ensures t' == if Blocked(c, u, start) then c else Refreshed(c, u, nodes, missingNodes, start, at, atMissing)
  {
    AfterRead(fk, u, z, c, CheckSwap(nodes, missingNodes, start), inputs, t');
    if Blocked(c, u, start) {
      OnlyCommit(fk, u, z, c, inputs[1..], t');
      at, atMissing := (id: Id) => until, (id: Id) => until;
    } else {
      WithinRest(inputs, from, until, 1);
      at, atMissing := ProceedDoes(fk, u, z, c, nodes, missingNodes, start, inputs[1..], from, until, t');
    }
  }

  lemma SetLeavesDoes(fk: bool, u: User, z: Sizes, t: Tables, nodes: seq<TreeNode>, missingNodes: seq<TreeNode>,
                      start: Time, inputs: seq<Input>, from: Time, until: Time, t': Tables) returns (op: Op)
    requires Finishes(fk, u, z, t, Start(CallSetLeaves(nodes, missingNodes, start)), inputs, t')
    requires Within(inputs, from, until) && from <= until
    ensures Asks(op, u, CallSetLeaves(nodes, missingNodes, start)) && TimesIn(op, from, until)
      && Refresh(fk, t, op) == t'
  {
    CleanupDoes(fk, u, z, t, CheckSwap(nodes, missingNodes, start), inputs, t');
    var releaseAt, dropAt := inputs[0].now, inputs[1].now;
    var c := CleanedUp(t, u, releaseAt, dropAt);
    WithinRest(inputs, from, until, 2);
    var at, atMissing := CheckSwapDoes(fk, u, z, c, nodes, missingNodes, start, inputs[2..], dropAt, until, t');
    op := SetLeaves(u, nodes, missingNodes, start, releaseAt, dropAt, at, atMissing);
  }

  // ----- every program -----------------------------------------------------------------------------

  /** A reservation to be opened gets an id that occurs nowhere yet. */
  ghost predicate NewRid(t: Tables, u: User, call: Call)
  {
    call.CallTryReserve? || call.CallReserveByIds? ==> !IsLive(t, u, call.rid) && HeldBy(t, u, call.rid) == {}
  }

  /** A transaction run alone to its commit does the operation it was asked for, at the times its
      statements read. */
  lemma ProgramDoes(fk: bool, u: User, z: Sizes, t: Tables, call: Call, inputs: seq<Input>, from: Time, until: Time,
                    t': Tables)
    returns (op: Op)
    requires Finishes(fk, u, z, t, Start(call), inputs, t') && Within(inputs, from, until) && from <= until
    requires NewRid(t, u, call)
    ensures Asks(op, u, call) && TimesIn(op, from, until) && Enabled(t, op)
    ensures Apply(fk, t, op) == t'
  {
    match call {
      case CallStoreAncestors(ps) =>
        StoreAncestorsDoes(fk, u, z, t, ps, inputs, t');
        op := StoreAncestors(u, ps);
      case CallSetLeaves(nodes, missingNodes, start) =>
        op := SetLeavesDoes(fk, u, z, t, nodes, missingNodes, start, inputs, from, until, t');
      case CallCancel(rid, keep) => op := CancelDoes(fk, u, z, t, rid, keep, inputs, from, until, t');
      case CallFinalize(rid, newLeaves) => op := FinalizeDoes(fk, u, z, t, rid, newLeaves, inputs, from, until, t');
      case CallTryReserve(_, _, _, _) => op := TryReserveDoes(fk, u, z, t, call, inputs, from, until, t');
      case CallReserveByIds(rid, ids, purpose) => op :=
        ReserveByIdsDoes(fk, u, z, t, rid, ids, purpose, inputs, from, until, t');
      case CallUpdate(rid, reserved, change) => op :=
        UpdateDoes(fk, u, z, t, rid, reserved, change, inputs, from, until, t');
    }
  }
}

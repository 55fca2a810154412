/** The token-output store's tables for one tenant, its operations as steps on them, and what a
    refresh leaves behind. */
module TokenTables {
  import opened Base
  import opened TokenSelection
  import TreeTables

  type Time = TreeTables.Time
  type Purpose = TreeTables.Purpose
  type Rid = string

  datatype Metadata = Metadata(identifier: string, details: string)

  datatype TokenOutputs = TokenOutputs(metadata: seq<Metadata>, outputs: seq<TokenOutput>)
  {
    /** `metadata_for`: the first metadata of the token. */
    function MetadataFor(token: string): Option<Metadata> { FirstMetadata(metadata, token) }
  }

  function FirstMetadata(ms: seq<Metadata>, token: string): (m: Option<Metadata>)
    ensures m.Some? ==> m.value.identifier == token
  {
    if ms == [] then None else if ms[0].identifier == token then Some(ms[0]) else FirstMetadata(ms[1..], token)
  }

  datatype OutputRow = OutputRow(output: TokenOutput, reservation: Option<Rid>, addedAt: Time)
  datatype TokenReservation = TokenReservation(purpose: Purpose, createdAt: Time)

  datatype TokenTables = TokenTables(
    outputs: map<Outpoint, OutputRow>,
    reservations: map<Rid, TokenReservation>,
    spent: map<Outpoint, Time>,
    lastSwap: Option<Time>,
    metadata: map<string, Metadata>)

  function Held(t: TokenTables, rid: Rid): set<Outpoint>
  {
    set o | o in t.outputs && t.outputs[o].reservation == Some(rid)
  }

  // ----- the refresh, statement by statement ----------------------------------------------------

  predicate TimedOut(r: TokenReservation, now: Time) { r.createdAt < now - TreeTables.RESERVATION_TIMEOUT }

  function ReleaseStale(t: TokenTables, now: Time): TokenTables
  {
    t.(outputs := map o | o in t.outputs ::
      var row := t.outputs[o];
      if row.reservation.Some? && row.reservation.value in t.reservations
        && TimedOut(t.reservations[row.reservation.value], now)
      then row.(reservation := None) else row)
  }

  function DropStale(t: TokenTables, now: Time): TokenTables
  {
    t.(reservations := map r | r in t.reservations && !TimedOut(t.reservations[r], now) :: t.reservations[r])
  }

  function CleanedUp(t: TokenTables, releaseAt: Time, dropAt: Time): TokenTables
  {
    DropStale(ReleaseStale(t, releaseAt), dropAt)
  }

  predicate NoDangling(t: TokenTables)
  {
    forall o :: o in t.outputs && t.outputs[o].reservation.Some? ==> t.outputs[o].reservation.value in t.reservations
  }

  predicate Blocked(t: TokenTables, start: Time)
  {
    || (exists r :: r in t.reservations && t.reservations[r].purpose == TreeTables.Swap)
    || (t.lastSwap.Some? && t.lastSwap.value >= start)
  }

  function DropOldMarkers(t: TokenTables, start: Time): TokenTables
  {
    t.(spent := map o | o in t.spent && t.spent[o] >= start - TreeTables.SPENT_MARKER_CLEANUP_THRESHOLD :: t.spent[o])
  }

  function RecentlySpent(t: TokenTables, start: Time): set<Outpoint>
  {
    set o | o in t.spent && t.spent[o] >= start
  }

  function DropStaleOutputs(t: TokenTables, start: Time): TokenTables
  {
    t.(outputs := map o | o in t.outputs
      && !(t.outputs[o].reservation.None? && t.outputs[o].addedAt < start) :: t.outputs[o])
  }

  /** Reservations that hold outputs, none of them still reported. */
  function Doomed(t: TokenTables, incoming: set<Outpoint>): set<Rid>
  {
    set r | r in t.reservations && Held(t, r) != {} && Held(t, r) !! incoming
  }

  /** Outputs no longer reported, of reservations that keep another one. */
  function Unreported(t: TokenTables, incoming: set<Outpoint>): set<Outpoint>
  {
    set o | o in t.outputs && t.outputs[o].reservation.Some? && t.outputs[o].reservation.value in t.reservations
      && !(Held(t, t.outputs[o].reservation.value) !! incoming) && o !in incoming
  }

  function DeleteOutputsOf(t: TokenTables, rids: set<Rid>): TokenTables
  {
    t.(outputs := map o | o in t.outputs
      && !(t.outputs[o].reservation.Some? && t.outputs[o].reservation.value in rids) :: t.outputs[o])
  }

  function DeleteReservations(t: TokenTables, rids: set<Rid>): TokenTables
  {
    t.(reservations := t.reservations - rids)
  }

  function DeleteOutputs(t: TokenTables, gone: set<Outpoint>): TokenTables
  {
    t.(outputs := t.outputs - gone)
  }

  function EmptyReservations(t: TokenTables): set<Rid>
  {
    set r | r in t.reservations && Held(t, r) == {}
  }

  /** Reservations against the reported outputs. */
  function Reconciled(t: TokenTables, incoming: set<Outpoint>): TokenTables
  {
    var doomed, unreported := Doomed(t, incoming), Unreported(t, incoming);
    var t1 := DeleteReservations(DeleteOutputsOf(t, doomed), doomed);
    if unreported == {} then t1
    else
      var t2 := DeleteOutputs(t1, unreported);
      DeleteReservations(t2, EmptyReservations(t2))
  }

  function ReservedOutpoints(t: TokenTables): set<Outpoint>
  {
    set o | o in t.outputs && t.outputs[o].reservation.Some?
  }

  function TokensHeld(t: TokenTables): set<string> { set o | o in t.outputs :: t.outputs[o].output.token }

  function DropOrphanMetadata(t: TokenTables): TokenTables
  {
    t.(metadata := map m | m in t.metadata && m in TokensHeld(t) :: t.metadata[m])
  }

  /** INSERT ... ON DUPLICATE KEY keeps the row that is there. */
  function InsertOutput(t: TokenTables, x: TokenOutput, at: Time): TokenTables
  {
    if x.at in t.outputs then t else t.(outputs := t.outputs[x.at := OutputRow(x, None, at)])
  }

  function UpsertMetadata(t: TokenTables, m: Metadata): TokenTables
  {
    t.(metadata := t.metadata[m.identifier := m])
  }

  /** Stores reported outputs in order: metadata once per token, outputs not to be skipped. */
  function StoreReported(t: TokenTables, outs: TokenOutputs, xs: seq<TokenOutput>, skip: set<Outpoint>,
                         at: Outpoint -> Time): TokenTables
    decreases xs
  {
    if xs == [] then t
    else
      var x := xs[0];
      var m := outs.MetadataFor(x.token);
      StoreReported(
        if m.None? then t
        else if x.at in skip then UpsertMetadata(t, m.value)
        else InsertOutput(UpsertMetadata(t, m.value), x, at(x.at)),
        outs, xs[1..], skip, at)
  }

  /** A token refresh past its swap checks. */
  function Refreshed(c: TokenTables, outs: TokenOutputs, start: Time, at: Outpoint -> Time): TokenTables
  {
    var t1 := DropStaleOutputs(DropOldMarkers(c, start), start);
    var t2 := DropOrphanMetadata(Reconciled(t1, Outpoints(outs.outputs)));
    StoreReported(t2, outs, outs.outputs, ReservedOutpoints(t2) + RecentlySpent(c, start), at)
  }

  datatype RefreshOutcome = Failed | Skipped | Proceeded

  function OutcomeOf(fk: bool, t: TokenTables, start: Time, releaseAt: Time, dropAt: Time): RefreshOutcome
  {
    var c := CleanedUp(t, releaseAt, dropAt);
    if fk && !NoDangling(c) then Failed else if Blocked(c, start) then Skipped else Proceeded
  }

  /** A skipped refresh returns without committing: its cleanup is rolled back. */
  function Refresh(fk: bool, t: TokenTables, outs: TokenOutputs, start: Time, releaseAt: Time, dropAt: Time,
                   at: Outpoint -> Time): TokenTables
  {
    if OutcomeOf(fk, t, start, releaseAt, dropAt).Proceeded? then Refreshed(CleanedUp(t, releaseAt, dropAt), outs,
      start, at) else t
  }

  // ----- what a refresh leaves ------------------------------------------------------------------

  /** A row the refresh does not delete. */
  predicate Stays(c: TokenTables, o: Outpoint, start: Time, incoming: set<Outpoint>)
    requires o in c.outputs
  {
    match c.outputs[o].reservation
    case None => c.outputs[o].addedAt >= start
    case Some(rid) => rid in c.reservations ==> o in incoming
  }

  /** Reported, and its token comes with metadata. */
  function WithMetadata(outs: TokenOutputs): set<Outpoint>
  {
    set x | x in outs.outputs && outs.MetadataFor(x.token).Some? :: x.at
  }

  /** The report that is stored for an outpoint: the first whose token has metadata. */
  function FirstReport(outs: TokenOutputs, xs: seq<TokenOutput>, o: Outpoint): Option<TokenOutput>
  {
    if xs == [] then None
    else if xs[0].at == o && outs.MetadataFor(xs[0].token).Some? then Some(xs[0])
    else FirstReport(outs, xs[1..], o)
  }

  function RowAt(t: TokenTables, o: Outpoint): Option<OutputRow>
  {
    if o in t.outputs then Some(t.outputs[o]) else None
  }

  function ExpectedRow(c: TokenTables, outs: TokenOutputs, start: Time, at: Outpoint -> Time,
                       o: Outpoint): Option<OutputRow>
  {
    if o in c.outputs && Stays(c, o, start, Outpoints(outs.outputs)) then Some(c.outputs[o])
    else if o !in RecentlySpent(c, start) && FirstReport(outs, outs.outputs, o).Some?
    then Some(OutputRow(FirstReport(outs, outs.outputs, o).value, None, at(o)))
    else None
  }

  lemma {:induction false} StoreReportedRow(t: TokenTables, outs: TokenOutputs, xs: seq<TokenOutput>,
                                            skip: set<Outpoint>, at: Outpoint -> Time, o: Outpoint)
    ensures RowAt(StoreReported(t, outs, xs, skip, at), o) ==
      if o in t.outputs then Some(t.outputs[o])
      else if o !in skip && FirstReport(outs, xs,
        o).Some? then Some(OutputRow(FirstReport(outs, xs, o).value, None, at(o)))
      else None
    ensures StoreReported(t, outs, xs, skip, at).reservations == t.reservations
    ensures StoreReported(t, outs, xs, skip, at).spent == t.spent
      && StoreReported(t, outs, xs, skip, at).lastSwap == t.lastSwap
    decreases xs
  {
    if xs != [] {
      var x := xs[0];
      var m := outs.MetadataFor(x.token);
      var t1 := if m.None? then t
        else if x.at in skip then UpsertMetadata(t, m.value)
        else InsertOutput(UpsertMetadata(t, m.value), x, at(x.at));
      StoreReportedRow(t1, outs, xs[1..], skip, at, o);
    }
  }

  lemma {:induction false} FirstReportIff(outs: TokenOutputs, xs: seq<TokenOutput>, o: Outpoint)
    ensures FirstReport(outs, xs, o).Some? <==> exists x :: x in xs && x.at == o && outs.MetadataFor(x.token).Some?
    ensures FirstReport(outs, xs, o).Some? ==>
      var x := FirstReport(outs, xs, o).value; x in xs && x.at == o && outs.MetadataFor(x.token).Some?
    decreases xs
  {
    if xs != [] {
      FirstReportIff(outs, xs[1..], o);
      assert xs == [xs[0]] + xs[1..];
    }
  }

  /** Which rows and reservations reconciliation leaves. */
  lemma ReconciledKeeps(t: TokenTables, incoming: set<Outpoint>, o: Outpoint)
    ensures RowAt(Reconciled(t, incoming), o) ==
      if o in t.outputs
        && (t.outputs[o].reservation.Some? && t.outputs[o].reservation.value in t.reservations ==> o in incoming)
      then Some(t.outputs[o]) else None
  {
    if o in t.outputs && t.outputs[o].reservation.Some? && t.outputs[o].reservation.value in t.reservations {
      var rid := t.outputs[o].reservation.value;
      assert o in Held(t, rid);
      if o in incoming {
      } else if Held(t, rid) !! incoming {
        assert rid in Doomed(t, incoming);
      } else {
        assert o in Unreported(t, incoming);
      }
    }
  }

  lemma ReconciledReservations(t: TokenTables, incoming: set<Outpoint>, rid: Rid)
    ensures rid in Reconciled(t, incoming).reservations <==>
      rid in t.reservations && if Held(t, rid) == {} then Unreported(t, incoming) == {} else !(Held(t, rid) !! incoming)
    ensures rid in Reconciled(t, incoming).reservations ==>
      Reconciled(t, incoming).reservations[rid] == t.reservations[rid]
  {
    var doomed, unreported := Doomed(t, incoming), Unreported(t, incoming);
    var t1 := DeleteReservations(DeleteOutputsOf(t, doomed), doomed);
    if unreported != {} && rid in t.reservations {
      var t2 := DeleteOutputs(t1, unreported);
      StillHeld(t, t2, incoming, rid);
      MeetIff(Held(t, rid), incoming);
    }
  }

  lemma MeetIff(a: set<Outpoint>, b: set<Outpoint>)
    ensures a * b == {} <==> a !! b
  {
    if a * b == {} {
      forall o | o in a ensures o !in b {
        assert o !in a * b;
      }
    }
  }

  lemma StillHeld(t: TokenTables, t2: TokenTables, incoming: set<Outpoint>, rid: Rid)
    requires rid in t.reservations
    requires t2 == DeleteOutputs(DeleteReservations(DeleteOutputsOf(t, Doomed(t, incoming)), Doomed(t, incoming)),
      Unreported(t, incoming))
    ensures Held(t2, rid) == Held(t, rid) * incoming
  {
    var held := Held(t, rid);
    assert rid in Doomed(t, incoming) <==> held != {} && held !! incoming;
    forall o ensures o in Held(t2, rid) <==> o in held * incoming {
      if o in held {
        assert o in Unreported(t, incoming) <==> !(held !! incoming) && o !in incoming;
      }
    }
  }

  /** After a token refresh that proceeds, every row is as expected, a reservation that held
      outputs survives exactly when one of them is still reported, and an empty one survives
      exactly when no other reservation lost a part of its outputs. */
  lemma RefreshExactly(c: TokenTables, outs: TokenOutputs, start: Time, at: Outpoint -> Time)
    ensures var t' := Refreshed(c, outs, start, at);
      var incoming := Outpoints(outs.outputs);
      && (forall o :: RowAt(t', o) == ExpectedRow(c, outs, start, at, o))
      && (forall rid :: rid in t'.reservations <==>
            rid in c.reservations && if Held(c, rid) == {} then Unreported(c, incoming) == {}
              else !(Held(c, rid) !! incoming))
      && (forall rid :: rid in t'.reservations && rid in c.reservations ==> t'.reservations[rid] == c.reservations[rid])
      && t'.spent == DropOldMarkers(c, start).spent && t'.lastSwap == c.lastSwap
  {
    var incoming := Outpoints(outs.outputs);
    var t' := Refreshed(c, outs, start, at);
    forall o ensures RowAt(t', o) == ExpectedRow(c, outs, start, at, o) {
      RefreshRow(c, outs, start, at, o);
    }
    forall rid
      ensures rid in t'.reservations <==>
        rid in c.reservations && if Held(c, rid) == {} then Unreported(c, incoming) == {}
          else !(Held(c, rid) !! incoming)
      ensures rid in t'.reservations && rid in c.reservations ==> t'.reservations[rid] == c.reservations[rid]
    {
      RefreshReservation(c, outs, start, at, rid);
    }
    RefreshReservation(c, outs, start, at, "");
  }

  lemma RefreshRow(c: TokenTables, outs: TokenOutputs, start: Time, at: Outpoint -> Time, o: Outpoint)
    ensures RowAt(Refreshed(c, outs, start, at), o) == ExpectedRow(c, outs, start, at, o)
  {
    var incoming := Outpoints(outs.outputs);
    var t1 := DropStaleOutputs(DropOldMarkers(c, start), start);
    var t2 := DropOrphanMetadata(Reconciled(t1, incoming));
    ReconciledKeeps(t1, incoming, o);
    FirstReportIff(outs, outs.outputs, o);
    StoreReportedRow(t2, outs, outs.outputs, ReservedOutpoints(t2) + RecentlySpent(c, start), at, o);
  }

  lemma RefreshReservation(c: TokenTables, outs: TokenOutputs, start: Time, at: Outpoint -> Time, rid: Rid)
    ensures var incoming := Outpoints(outs.outputs);
      rid in Refreshed(c, outs, start, at).reservations <==>
      rid in c.reservations && if Held(c, rid) == {} then Unreported(c, incoming) == {} else !(Held(c, rid) !! incoming)
    ensures var t' := Refreshed(c, outs, start, at);
      && (rid in t'.reservations ==> t'.reservations[rid] == c.reservations[rid])
      && t'.spent == DropOldMarkers(c, start).spent && t'.lastSwap == c.lastSwap
  {
    var incoming := Outpoints(outs.outputs);
    var t1 := DropStaleOutputs(DropOldMarkers(c, start), start);
    var t2 := DropOrphanMetadata(Reconciled(t1, incoming));
    StaleHoldNothing(c, t1, start, incoming, rid);
    ReconciledReservations(t1, incoming, rid);
    StoreReportedRow(t2, outs, outs.outputs, ReservedOutpoints(t2) + RecentlySpent(c, start), at, Outpoint("", 0));
  }

  lemma StaleHoldNothing(c: TokenTables, t1: TokenTables, start: Time, incoming: set<Outpoint>, rid: Rid)
    requires t1 == DropStaleOutputs(DropOldMarkers(c, start), start)
    ensures Held(t1, rid) == Held(c, rid) && Unreported(t1, incoming) == Unreported(c, incoming)
  {
    forall r ensures Held(t1, r) == Held(c, r) {
    }
  }

  function Available(t: TokenTables): set<Outpoint>
  {
    set o | o in t.outputs && t.outputs[o].reservation.None?
  }

  /** Each surviving reservation keeps exactly its reported outputs, and the available set is
      exactly the outputs reported with metadata, less the reserved and the recently spent, plus
      the unreserved ones added since the refresh began. */
  lemma RefreshPartition(c: TokenTables, outs: TokenOutputs, start: Time, at: Outpoint -> Time)
    ensures var t' := Refreshed(c, outs, start, at);
      && (forall rid :: rid in t'.reservations ==> Held(t', rid) == Held(c, rid) * Outpoints(outs.outputs))
      && Available(t') == (WithMetadata(outs) - ReservedOutpoints(t') - RecentlySpent(c, start))
                          + (set o | o in Available(c) && c.outputs[o].addedAt >= start)
  {
    var t' := Refreshed(c, outs, start, at);
    RefreshExactly(c, outs, start, at);
    forall rid | rid in t'.reservations ensures Held(t', rid) == Held(c, rid) * Outpoints(outs.outputs) {
      SurvivorKeeps(c, outs, start, at, rid, t');
    }
    var expected := (WithMetadata(outs) - ReservedOutpoints(t') - RecentlySpent(c, start))
                    + (set o | o in Available(c) && c.outputs[o].addedAt >= start);
    forall o ensures o in Available(t') <==> o in expected {
      assert RowAt(t', o) == ExpectedRow(c, outs, start, at, o);
      FirstReportIff(outs, outs.outputs, o);
      AvailableRow(c, outs, start, at, o, t');
    }
  }

  lemma SurvivorKeeps(c: TokenTables, outs: TokenOutputs, start: Time, at: Outpoint -> Time, rid: Rid, t': TokenTables)
    requires rid in c.reservations && forall o :: RowAt(t', o) == ExpectedRow(c, outs, start, at, o)
    ensures Held(t', rid) == Held(c, rid) * Outpoints(outs.outputs)
  {
    forall o ensures o in Held(t', rid) <==> o in Held(c, rid) * Outpoints(outs.outputs) {
      assert RowAt(t', o) == ExpectedRow(c, outs, start, at, o);
    }
  }

  lemma AvailableRow(c: TokenTables, outs: TokenOutputs, start: Time, at: Outpoint -> Time, o: Outpoint,
                     t': TokenTables)
    requires RowAt(t', o) == ExpectedRow(c, outs, start, at, o)
    ensures o in Available(t') <==>
      (o in WithMetadata(outs) && o !in ReservedOutpoints(t') && o !in RecentlySpent(c, start))
      || (o in Available(c) && c.outputs[o].addedAt >= start)
  {
    FirstReportIff(outs, outs.outputs, o);
    assert o in WithMetadata(outs) <==> FirstReport(outs, outs.outputs, o).Some?;
  }

  // ----- metadata -------------------------------------------------------------------------------

  function TokensReported(outs: TokenOutputs, xs: seq<TokenOutput>): set<string>
  {
    set x | x in xs && outs.MetadataFor(x.token).Some? :: x.token
  }

  lemma {:induction false} StoreReportedMetadata(t: TokenTables, outs: TokenOutputs, xs: seq<TokenOutput>,
                                                 skip: set<Outpoint>, at: Outpoint -> Time, m: string)
    ensures m in StoreReported(t, outs, xs, skip, at).metadata <==> m in t.metadata || m in TokensReported(outs, xs)
    ensures m in TokensReported(outs, xs) ==>
      Some(StoreReported(t, outs, xs, skip, at).metadata[m]) == outs.MetadataFor(m)
    ensures m in t.metadata && m !in TokensReported(outs, xs) ==>
      StoreReported(t, outs, xs, skip, at).metadata[m] == t.metadata[m]
    decreases xs
  {
    if xs != [] {
      var x := xs[0];
      var found := outs.MetadataFor(x.token);
      var t1 := if found.None? then t
        else if x.at in skip then UpsertMetadata(t, found.value)
        else InsertOutput(UpsertMetadata(t, found.value), x, at(x.at));
      StoreReportedMetadata(t1, outs, xs[1..], skip, at, m);
      assert xs == [xs[0]] + xs[1..];
      assert m in TokensReported(outs, xs) <==> (m == x.token && found.Some?) || m in TokensReported(outs, xs[1..]) by {
        if m in TokensReported(outs, xs[1..]) {
          var y :| y in xs[1..] && outs.MetadataFor(y.token).Some? && y.token == m;
          assert y in xs;
        }
        if m == x.token && found.Some? {
          assert x in xs;
        }
      }
    }
  }

  /** The metadata a refresh leaves: that of tokens some row outlived the deletes for, and that of
      every token reported with metadata, the reported one winning. */
  lemma RefreshMetadata(c: TokenTables, outs: TokenOutputs, start: Time, at: Outpoint -> Time, m: string)
    ensures var t' := Refreshed(c, outs, start, at);
      var kept := m in c.metadata && exists o ::
        o in c.outputs && Stays(c, o, start, Outpoints(outs.outputs)) && c.outputs[o].output.token == m;
      && (m in t'.metadata <==> kept || m in TokensReported(outs, outs.outputs))
      && (m in TokensReported(outs, outs.outputs) ==> Some(t'.metadata[m]) == outs.MetadataFor(m))
      && (kept && m !in TokensReported(outs, outs.outputs) ==> t'.metadata[m] == c.metadata[m])
  {
    var incoming := Outpoints(outs.outputs);
    var t1 := DropStaleOutputs(DropOldMarkers(c, start), start);
    var r := Reconciled(t1, incoming);
    var t2 := DropOrphanMetadata(r);
    StoreReportedMetadata(t2, outs, outs.outputs, ReservedOutpoints(t2) + RecentlySpent(c, start), at, m);
    assert r.metadata == c.metadata;
    forall o
      ensures RowAt(r, o) == if o in c.outputs && Stays(c, o, start, incoming) then Some(c.outputs[o]) else None
    {
      ReconciledKeeps(t1, incoming, o);
    }
    TokensOfStaying(c, r, start, incoming, m);
  }

  lemma TokensOfStaying(c: TokenTables, r: TokenTables, start: Time, incoming: set<Outpoint>, m: string)
    requires forall o ::
      RowAt(r, o) == if o in c.outputs && Stays(c, o, start, incoming) then Some(c.outputs[o]) else None
    ensures m in TokensHeld(r) <==>
      exists o :: o in c.outputs && Stays(c, o, start, incoming) && c.outputs[o].output.token == m
  {
    if m in TokensHeld(r) {
      var o :| o in r.outputs && r.outputs[o].output.token == m;
      assert RowAt(r, o).Some?;
    }
    if o :| o in c.outputs && Stays(c, o, start, incoming) && c.outputs[o].output.token == m {
      assert RowAt(r, o) == Some(c.outputs[o]);
    }
  }
}

/** The one-shot schema rename. Each rename is guarded and commits by itself; the migrations
    tracker is renamed last and doubles as the canary, so a crash leaves the canary in place and
    the replay finds every finished rename settled. */
module SchemaRename {
  import opened Base

  datatype Table = Table(rows: seq<string>, indexes: map<string, string>, foreignKeys: map<string, string>)
  type Tables = map<string, Table>

  datatype TableRename = TableRename(oldName: string, newName: string)
  datatype IndexRename = IndexRename(table: string, oldName: string, newName: string)
  datatype FkRename = FkRename(table: string, oldName: string, newName: string, definition: string)

  datatype Renames = Renames(oldTracker: string, newTracker: string, tables: seq<TableRename>,
                             indexes: seq<IndexRename>, foreignKeys: seq<FkRename>)

  datatype Step = MoveTable(from: string, to: string) | MoveIndex(table: string, from: string, to: string)
    | MoveFk(table: string, from: string, to: string, definition: string)

  /** The guard each rename looks up in the information schema. */
  predicate Enabled(s: Tables, step: Step)
  {
    match step
    case MoveTable(from, to) => from in s && to !in s
    case MoveIndex(table, from, to) => table in s && from in s[table].indexes && to !in s[table].indexes
    case MoveFk(table, from, to, _) => table in s && from in s[table].foreignKeys && to !in s[table].foreignKeys
  }

  function Do(s: Tables, step: Step): Tables
  {
    if !Enabled(s, step) then s
    else
      match step
      case MoveTable(from, to) => (s - {from})[to := s[from]]
      case MoveIndex(table, from, to) =>
        s[table := s[table].(indexes := (s[table].indexes - {from})[to := s[table].indexes[from]])]
      case MoveFk(table, from, to, definition) =>
        s[table := s[table].(foreignKeys := (s[table].foreignKeys - {from})[to := definition])]
  }

  function RunSteps(s: Tables, steps: seq<Step>): Tables
    decreases steps
  {
    if steps == [] then s else RunSteps(Do(s, steps[0]), steps[1..])
  }

  /** How many of the steps act, each with one statement. */
  function Cost(s: Tables, steps: seq<Step>): nat
    decreases steps
  {
    if steps == [] then 0 else (if Enabled(s, steps[0]) then 1 else 0) + Cost(Do(s, steps[0]), steps[1..])
  }

  function TableSteps(r: Renames): seq<Step>
  {
    seq(|r.tables|, i requires 0 <= i < |r.tables| => MoveTable(r.tables[i].oldName, r.tables[i].newName))
  }

  function IndexSteps(r: Renames): seq<Step>
  {
    seq(|r.indexes|, i requires 0 <= i < |r.indexes| =>
      MoveIndex(r.indexes[i].table, r.indexes[i].oldName, r.indexes[i].newName))
  }

  function FkSteps(r: Renames): seq<Step>
  {
    seq(|r.foreignKeys|, i requires 0 <= i < |r.foreignKeys| =>
      MoveFk(r.foreignKeys[i].table, r.foreignKeys[i].oldName, r.foreignKeys[i].newName, r.foreignKeys[i].definition))
  }

  /** Everything but the tracker. */
  function OwnSteps(r: Renames): seq<Step> { TableSteps(r) + IndexSteps(r) + FkSteps(r) }

  function TrackerStep(r: Renames): Step { MoveTable(r.oldTracker, r.newTracker) }

  function AllSteps(r: Renames): seq<Step> { OwnSteps(r) + [TrackerStep(r)] }

  /** `apply_renames`. */
  function Renamed(s: Tables, r: Renames): Tables { if r.oldTracker !in s then s else RunSteps(s, AllSteps(r)) }

  /** An attempt that dies after some of its renames. */
  function Attempt(s: Tables, r: Renames, done: nat): Tables
    requires done <= |AllSteps(r)|
  {
    if r.oldTracker !in s then s else RunSteps(s, AllSteps(r)[..done])
  }

  // ----- disjoint names ----------------------------------------------------------------------------

  /** A rename that is finished stays finished under a later one: no name is both old and new. */
  predicate Apart(done: Step, later: Step)
  {
    match done
    case MoveTable(from, to) => later.MoveTable? ==> later.to != from && later.from != to
    case MoveIndex(table, from, to) => !later.MoveTable? && (later.MoveIndex? ==> later.to != from && later.from != to)
    case MoveFk(table, from, to, _) => !later.MoveTable? && (later.MoveFk? ==> later.to != from && later.from != to)
  }

  /** Old names and new names are disjoint, kind by kind, and the tracker is renamed by nothing
      but its own step. */
  ghost predicate Proper(r: Renames)
  {
    && (forall p, q :: p in r.tables && q in r.tables ==> p.oldName != q.newName)
    && (forall p, q :: p in r.indexes && q in r.indexes ==> p.oldName != q.newName)
    && (forall p, q :: p in r.foreignKeys && q in r.foreignKeys ==> p.oldName != q.newName)
    && (forall p :: p in r.tables ==>
      p.oldName != r.oldTracker && p.newName != r.oldTracker && p.oldName != r.newTracker && p.newName != r.newTracker)
    && r.oldTracker != r.newTracker
  }

  ghost predicate Ordered(steps: seq<Step>)
  {
    && (forall i :: 0 <= i < |steps| ==> Apart(steps[i], steps[i]))
    && (forall i, j :: 0 <= i < j < |steps| ==> Apart(steps[i], steps[j]))
  }

  lemma OwnStepsOrdered(r: Renames)
    requires Proper(r)
    ensures Ordered(OwnSteps(r))
    ensures forall i :: 0 <= i < |OwnSteps(r)| && OwnSteps(r)[i].MoveTable? ==>
      OwnSteps(r)[i].from != r.oldTracker && OwnSteps(r)[i].to != r.oldTracker
      && OwnSteps(r)[i].from != r.newTracker && OwnSteps(r)[i].to != r.newTracker
  {
    var ts, is_, steps := |r.tables|, |r.indexes|, OwnSteps(r);
    forall i, j | 0 <= i <= j < |steps| ensures Apart(steps[i], steps[j]) {
      StepAt(r, i);
      StepAt(r, j);
    }
    forall i | 0 <= i < |steps| && steps[i].MoveTable?
      ensures steps[i].from != r.oldTracker && steps[i].to != r.oldTracker && steps[i].from != r.newTracker
        && steps[i].to != r.newTracker
    {
      StepAt(r, i);
    }
  }

  /** Which rename a step comes from. */
  lemma StepAt(r: Renames, i: nat)
    requires i < |OwnSteps(r)|
    ensures i < |r.tables| ==>
      r.tables[i] in r.tables && OwnSteps(r)[i] == MoveTable(r.tables[i].oldName, r.tables[i].newName)
    ensures |r.tables| <= i < |r.tables| + |r.indexes| ==>
      var x := r.indexes[i - |r.tables|];
      x in r.indexes && OwnSteps(r)[i] == MoveIndex(x.table, x.oldName, x.newName)
    ensures |r.tables| + |r.indexes| <= i ==>
      var f := r.foreignKeys[i - |r.tables| - |r.indexes|];
      f in r.foreignKeys && OwnSteps(r)[i] == MoveFk(f.table, f.oldName, f.newName, f.definition)
  {}

  // ----- settled renames ---------------------------------------------------------------------------

  lemma DoSettles(s: Tables, step: Step)
    requires Apart(step, step)
    ensures !Enabled(Do(s, step), step)
  {}

  lemma StaysSettled(s: Tables, done: Step, later: Step)
    requires !Enabled(s, done) && Apart(done, later)
    ensures !Enabled(Do(s, later), done)
  {}

  lemma RunStepsSnoc(s: Tables, steps: seq<Step>, step: Step)
    ensures RunSteps(s, steps + [step]) == Do(RunSteps(s, steps), step)
  {
    RunStepsConcat(s, steps, [step]);
    assert [step][1..] == [];
  }

  lemma {:induction false} RunStepsConcat(s: Tables, a: seq<Step>, b: seq<Step>)
    ensures RunSteps(s, a + b) == RunSteps(RunSteps(s, a), b)
    decreases a
  {
    if a == [] {
      assert a + b == b;
    } else {
      assert (a + b)[1..] == a[1..] + b;
      RunStepsConcat(Do(s, a[0]), a[1..], b);
    }
  }

  /** After its steps ran, none of them can act again. */
  lemma {:induction false} AllSettled(s: Tables, steps: seq<Step>)
    requires Ordered(steps)
    ensures forall i :: 0 <= i < |steps| ==> !Enabled(RunSteps(s, steps), steps[i])
    decreases steps
  {
    if steps != [] {
      var n := |steps| - 1;
      AllSettled(s, steps[..n]);
      RunStepsSnoc(s, steps[..n], steps[n]);
      assert steps == steps[..n] + [steps[n]];
      var s1 := RunSteps(s, steps[..n]);
      DoSettles(s1, steps[n]);
      forall i | 0 <= i < n ensures !Enabled(RunSteps(s, steps), steps[i]) {
        assert !Enabled(s1, steps[..n][i]);
        StaysSettled(s1, steps[i], steps[n]);
      }
    }
  }

  lemma {:induction false} SettledDoNothing(s: Tables, steps: seq<Step>)
    requires forall i :: 0 <= i < |steps| ==> !Enabled(s, steps[i])
    ensures RunSteps(s, steps) == s
    decreases steps
  {
    if steps != [] {
      assert forall i :: 0 <= i < |steps[1..]| ==> !Enabled(s, steps[1..][i]) by {
        assert forall i :: 0 <= i < |steps[1..]| ==> steps[1..][i] == steps[i + 1];
      }
      SettledDoNothing(s, steps[1..]);
    }
  }

  /** Replaying every step after a prefix of them ran gives what running them once gives. */
  lemma ReplayIsSame(s: Tables, steps: seq<Step>, done: nat)
    requires done <= |steps| && Ordered(steps[..done])
    ensures RunSteps(RunSteps(s, steps[..done]), steps) == RunSteps(s, steps)
  {
    var s1 := RunSteps(s, steps[..done]);
    AllSettled(s, steps[..done]);
    SettledDoNothing(s1, steps[..done]);
    assert steps == steps[..done] + steps[done..];
    RunStepsConcat(s1, steps[..done], steps[done..]);
    RunStepsConcat(s, steps[..done], steps[done..]);
  }

  // ----- the trackers --------------------------------------------------------------------------------

  lemma {:induction false} OthersKeepName(s: Tables, steps: seq<Step>, name: string)
    requires forall i :: 0 <= i < |steps| && steps[i].MoveTable? ==> steps[i].from != name && steps[i].to != name
    ensures name in RunSteps(s, steps) <==> name in s
    decreases steps
  {
    if steps != [] {
      assert forall i :: 0 <= i < |steps[1..]| ==> steps[1..][i] == steps[i + 1];
      OthersKeepName(Do(s, steps[0]), steps[1..], name);
    }
  }

  /** Before its own step the trackers are where they were. */
  lemma TrackersUntilLast(s: Tables, r: Renames, done: nat)
    requires Proper(r) && done <= |OwnSteps(r)|
    ensures r.oldTracker in RunSteps(s, OwnSteps(r)[..done]) <==> r.oldTracker in s
    ensures r.newTracker in RunSteps(s, OwnSteps(r)[..done]) <==> r.newTracker in s
  {
    OwnStepsOrdered(r);
    OthersKeepName(s, OwnSteps(r)[..done], r.oldTracker);
    OthersKeepName(s, OwnSteps(r)[..done], r.newTracker);
  }

  predicate OldTrackerOnly(s: Tables, r: Renames) { r.oldTracker in s && r.newTracker !in s }

  predicate NewTrackerOnly(s: Tables, r: Renames) { r.newTracker in s && r.oldTracker !in s }

  /** After an attempt exactly one tracker is there: the old one until the very last rename. */
  lemma AttemptKeepsOneTracker(s: Tables, r: Renames, done: nat)
    requires Proper(r) && done <= |AllSteps(r)| && OldTrackerOnly(s, r)
    ensures done < |AllSteps(r)| ==> OldTrackerOnly(Attempt(s, r, done), r)
    ensures done == |AllSteps(r)| ==> NewTrackerOnly(Attempt(s, r, done), r) && Attempt(s, r, done) == Renamed(s, r)
  {
    if done < |AllSteps(r)| {
      assert AllSteps(r)[..done] == OwnSteps(r)[..done];
      TrackersUntilLast(s, r, done);
    } else {
      assert AllSteps(r)[..done] == AllSteps(r);
      assert OwnSteps(r)[..|OwnSteps(r)|] == OwnSteps(r);
      TrackersUntilLast(s, r, |OwnSteps(r)|);
      RunStepsSnoc(s, OwnSteps(r), TrackerStep(r));
    }
  }

  /** A crash at any rename and a replay end like one uninterrupted run; once finished, the rename
      never acts again. */
  lemma CrashAndReplay(s: Tables, r: Renames, done: nat)
    requires Proper(r) && done <= |AllSteps(r)| && OldTrackerOnly(s, r)
    ensures Renamed(Attempt(s, r, done), r) == Renamed(s, r)
    ensures Renamed(Renamed(s, r), r) == Renamed(s, r)
  {
    AttemptKeepsOneTracker(s, r, done);
    AttemptKeepsOneTracker(s, r, |AllSteps(r)|);
    assert AllSteps(r)[..|AllSteps(r)|] == AllSteps(r);
    if done < |AllSteps(r)| {
      OwnStepsOrdered(r);
      assert AllSteps(r)[..done] == OwnSteps(r)[..done];
      ReplayIsSame(s, AllSteps(r), done);
    }
  }

  predicate Valid(r: Renames, dones: seq<nat>) { forall i :: 0 <= i < |dones| ==> dones[i] <= |AllSteps(r)| }

  /** Any number of attempts, each dying anywhere. */
  function Attempts(s: Tables, r: Renames, dones: seq<nat>): Tables
    requires Valid(r, dones)
    decreases dones
  {
    if dones == [] then s else Attempts(Attempt(s, r, dones[0]), r, dones[1..])
  }

  lemma {:induction false} ManyCrashes(s: Tables, r: Renames, dones: seq<nat>)
    requires Proper(r) && Valid(r, dones)
    requires OldTrackerOnly(s, r)
    ensures var end := Attempts(s, r, dones);
      && Renamed(end, r) == Renamed(s, r)
      && (OldTrackerOnly(end, r) || (NewTrackerOnly(end, r) && end == Renamed(s, r)))
    decreases dones
  {
    if dones != [] {
      var s1 := Attempt(s, r, dones[0]);
      CrashAndReplay(s, r, dones[0]);
      AttemptKeepsOneTracker(s, r, dones[0]);
      if dones[0] < |AllSteps(r)| {
        ManyCrashes(s1, r, dones[1..]);
      } else {
        FinishedStays(s1, r, dones[1..]);
      }
    }
  }

  lemma {:induction false} FinishedStays(s: Tables, r: Renames, dones: seq<nat>)
    requires r.oldTracker !in s && Valid(r, dones)
    ensures Attempts(s, r, dones) == s
    decreases dones
  {
    if dones != [] {
      FinishedStays(s, r, dones[1..]);
    }
  }

  // ----- contents ------------------------------------------------------------------------------------

  /** Where a table's rows end up. */
  function Destination(s: Tables, steps: seq<Step>, name: string): string
    decreases steps
  {
    if steps == [] then name
    else
      var step := steps[0];
      Destination(Do(s, step), steps[1..],
        if step.MoveTable? && Enabled(s, step) && step.from == name then step.to else name)
  }

  /** Every table's rows are where they were or under its new name, unchanged. */
  lemma {:induction false} RowsFollow(s: Tables, steps: seq<Step>, name: string)
    requires name in s
    ensures Destination(s, steps, name) in RunSteps(s, steps)
    ensures RunSteps(s, steps)[Destination(s, steps, name)].rows == s[name].rows
    decreases steps
  {
    if steps != [] {
      var step := steps[0];
      RowsFollow(Do(s, step), steps[1..],
        if step.MoveTable? && Enabled(s, step) && step.from == name then step.to else name);
    }
  }

  /** No two tables end up under one name, and none appears from nowhere. */
  lemma {:induction false} OnlyTheOldTables(s: Tables, steps: seq<Step>, name: string) returns (was: string)
    requires name in RunSteps(s, steps)
    ensures was in s && Destination(s, steps, was) == name
    ensures forall other :: other in s && Destination(s, steps, other) == name ==> other == was
    decreases steps
  {
    if steps == [] {
      was := name;
    } else {
      var step := steps[0];
      var mid := OnlyTheOldTables(Do(s, step), steps[1..], name);
      was := if step.MoveTable? && Enabled(s, step) && step.to == mid then step.from else mid;
      forall other | other in s && Destination(s, steps, other) == name ensures other == was {
        var moved := if step.MoveTable? && Enabled(s, step) && step.from == other then step.to else other;
        assert moved in Do(s, step);
        assert Destination(Do(s, step), steps[1..], moved) == name;
      }
    }
  }

  lemma {:induction false} DestinationConcat(s: Tables, a: seq<Step>, b: seq<Step>, name: string)
    ensures Destination(s, a + b, name) == Destination(RunSteps(s, a), b, Destination(s, a, name))
    decreases a
  {
    if a == [] {
      assert a + b == b;
    } else {
      assert (a + b)[1..] == a[1..] + b;
      var step := a[0];
      DestinationConcat(Do(s, step), a[1..], b,
        if step.MoveTable? && Enabled(s, step) && step.from == name then step.to else name);
    }
  }

  lemma {:induction false} NotMoved(s: Tables, steps: seq<Step>, name: string)
    requires forall i :: 0 <= i < |steps| && steps[i].MoveTable? ==> steps[i].from != name
    ensures Destination(s, steps, name) == name
    decreases steps
  {
    if steps != [] {
      assert forall i :: 0 <= i < |steps[1..]| ==> steps[1..][i] == steps[i + 1];
      NotMoved(Do(s, steps[0]), steps[1..], name);
    }
  }

  /** A table whose old name is there and whose new name is free ends up under the new name, when
      no two renames share a name. */
  lemma TableGetsNewName(s: Tables, r: Renames, i: nat)
    requires Proper(r) && i < |r.tables| && r.tables[i].oldName in s && r.tables[i].newName !in s
    requires forall j :: 0 <= j < |r.tables| && j != i ==>
      r.tables[j].oldName != r.tables[i].oldName && r.tables[j].newName != r.tables[i].newName
    ensures Destination(s, AllSteps(r), r.tables[i].oldName) == r.tables[i].newName
  {
    var p, all := r.tables[i], AllSteps(r);
    assert p in r.tables;
    forall k | 0 <= k < |all| && all[k].MoveTable? && k != i
      ensures all[k].from != p.oldName && all[k].from != p.newName && all[k].to != p.newName && all[k].to != p.oldName
    {
      if k < |OwnSteps(r)| {
        StepAt(r, k);
      }
    }
    StepAt(r, i);
    var pre, post := all[..i], all[i + 1..];
    assert all == pre + ([all[i]] + post);
    NotMoved(s, pre, p.oldName);
    OthersKeepName(s, pre, p.oldName);
    OthersKeepName(s, pre, p.newName);
    DestinationConcat(s, pre, [all[i]] + post, p.oldName);
    assert ([all[i]] + post)[1..] == post;
    NotMoved(Do(RunSteps(s, pre), all[i]), post, p.newName);
  }

  /** The whole rename, in whatever number of attempts, keeps every table's rows, the version
      history among them under the tracker's new name. */
  lemma ContentsPreserved(s: Tables, r: Renames, dones: seq<nat>, name: string)
    requires Proper(r) && Valid(r, dones)
    requires OldTrackerOnly(s, r) && name in s
    ensures var end := Renamed(Attempts(s, r, dones), r);
      && Destination(s, AllSteps(r), name) in end && end[Destination(s, AllSteps(r), name)].rows == s[name].rows
      && r.newTracker in end && end[r.newTracker].rows == s[r.oldTracker].rows
  {
    ManyCrashes(s, r, dones);
    RowsFollow(s, AllSteps(r), name);
    TrackerFollows(s, r);
    RowsFollow(s, AllSteps(r), r.oldTracker);
  }

  lemma TrackerFollows(s: Tables, r: Renames)
    requires Proper(r) && OldTrackerOnly(s, r)
    ensures Destination(s, AllSteps(r), r.oldTracker) == r.newTracker
  {
    OwnStepsOrdered(r);
    assert OwnSteps(r)[..|OwnSteps(r)|] == OwnSteps(r);
    TrackersUntilLast(s, r, |OwnSteps(r)|);
    OthersStay(s, OwnSteps(r), TrackerStep(r), r.oldTracker);
  }

  lemma {:induction false} OthersStay(s: Tables, steps: seq<Step>, last: Step, name: string)
    requires forall i :: 0 <= i < |steps| && steps[i].MoveTable? ==> steps[i].from != name
    requires last.MoveTable? && last.from == name && Enabled(RunSteps(s, steps), last)
    ensures Destination(s, steps + [last], name) == last.to
    decreases steps
  {
    if steps == [] {
      assert steps + [last] == [last] && [last][1..] == [];
    } else {
      assert (steps + [last])[1..] == steps[1..] + [last];
      assert forall i :: 0 <= i < |steps[1..]| ==> steps[1..][i] == steps[i + 1];
      OthersStay(Do(s, steps[0]), steps[1..], last, name);
    }
  }

  // ----- indexes and foreign keys ------------------------------------------------------------------

  function IndexAt(s: Tables, table: string, name: string): Option<string>
  {
    if table in s && name in s[table].indexes then Some(s[table].indexes[name]) else None
  }

  function FkAt(s: Tables, table: string, name: string): Option<string>
  {
    if table in s && name in s[table].foreignKeys then Some(s[table].foreignKeys[name]) else None
  }

  /** The step renames the table, to or from this name. */
  predicate MovesTable(step: Step, table: string) { step.MoveTable? && (step.from == table || step.to == table) }

  predicate SparesIndex(step: Step, table: string, name: string)
  {
    !MovesTable(step, table) && (step.MoveIndex? && step.table == table ==> step.from != name && step.to != name)
  }

  predicate SparesFk(step: Step, table: string, name: string)
  {
    !MovesTable(step, table) && (step.MoveFk? && step.table == table ==> step.from != name && step.to != name)
  }

  /** A name keeps what it stands for under steps that rename neither its table nor it. */
  lemma {:induction false} OthersKeepIndex(s: Tables, steps: seq<Step>, table: string, name: string)
    requires forall i :: 0 <= i < |steps| ==> SparesIndex(steps[i], table, name)
    ensures IndexAt(RunSteps(s, steps), table, name) == IndexAt(s, table, name)
    decreases steps
  {
    if steps != [] {
      assert forall i :: 0 <= i < |steps[1..]| ==> steps[1..][i] == steps[i + 1];
      OthersKeepIndex(Do(s, steps[0]), steps[1..], table, name);
    }
  }

  lemma {:induction false} OthersKeepFk(s: Tables, steps: seq<Step>, table: string, name: string)
    requires forall i :: 0 <= i < |steps| ==> SparesFk(steps[i], table, name)
    ensures FkAt(RunSteps(s, steps), table, name) == FkAt(s, table, name)
    decreases steps
  {
    if steps != [] {
      assert forall i :: 0 <= i < |steps[1..]| ==> steps[1..][i] == steps[i + 1];
      OthersKeepFk(Do(s, steps[0]), steps[1..], table, name);
    }
  }

  /** Renaming tables takes each along whole. */
  lemma {:induction false} TablesFollow(s: Tables, steps: seq<Step>, name: string)
    requires name in s && forall i :: 0 <= i < |steps| ==> steps[i].MoveTable?
    ensures Destination(s, steps, name) in RunSteps(s, steps)
    ensures RunSteps(s, steps)[Destination(s, steps, name)] == s[name]
    decreases steps
  {
    if steps != [] {
      var step := steps[0];
      assert forall i :: 0 <= i < |steps[1..]| ==> steps[1..][i] == steps[i + 1];
      TablesFollow(Do(s, step), steps[1..],
        if step.MoveTable? && Enabled(s, step) && step.from == name then step.to else name);
    }
  }

  /** A rename of one index among steps that leave its names alone. */
  lemma IndexMoved(s: Tables, steps: seq<Step>, i: nat)
    requires i < |steps| && steps[i].MoveIndex? && steps[i].from != steps[i].to
    requires forall j :: 0 <= j < |steps| && j != i ==>
      SparesIndex(steps[j], steps[i].table, steps[i].from) && SparesIndex(steps[j], steps[i].table, steps[i].to)
    requires IndexAt(s, steps[i].table, steps[i].from).Some? && IndexAt(s, steps[i].table, steps[i].to).None?
    ensures var x, end := steps[i], RunSteps(s, steps);
      IndexAt(end, x.table, x.to) == IndexAt(s, x.table, x.from) && IndexAt(end, x.table, x.from).None?
  {
    var x, pre, post := steps[i], steps[..i], steps[i + 1..];
    assert steps == pre + ([x] + post) && ([x] + post)[1..] == post;
    assert forall j :: 0 <= j < |post| ==> post[j] == steps[i + 1 + j];
    RunStepsConcat(s, pre, [x] + post);
    OthersKeepIndex(s, pre, x.table, x.from);
    OthersKeepIndex(s, pre, x.table, x.to);
    var s1 := Do(RunSteps(s, pre), x);
    OthersKeepIndex(s1, post, x.table, x.from);
    OthersKeepIndex(s1, post, x.table, x.to);
  }

  lemma FkMoved(s: Tables, steps: seq<Step>, i: nat)
    requires i < |steps| && steps[i].MoveFk? && steps[i].from != steps[i].to
    requires forall j :: 0 <= j < |steps| && j != i ==>
      SparesFk(steps[j], steps[i].table, steps[i].from) && SparesFk(steps[j], steps[i].table, steps[i].to)
    requires FkAt(s, steps[i].table, steps[i].from).Some? && FkAt(s, steps[i].table, steps[i].to).None?
    ensures var x, end := steps[i], RunSteps(s, steps);
      FkAt(end, x.table, x.to) == Some(x.definition) && FkAt(end, x.table, x.from).None?
  {
    var x, pre, post := steps[i], steps[..i], steps[i + 1..];
    assert steps == pre + ([x] + post) && ([x] + post)[1..] == post;
    assert forall j :: 0 <= j < |post| ==> post[j] == steps[i + 1 + j];
    RunStepsConcat(s, pre, [x] + post);
    OthersKeepFk(s, pre, x.table, x.from);
    OthersKeepFk(s, pre, x.table, x.to);
    var s1 := Do(RunSteps(s, pre), x);
    OthersKeepFk(s1, post, x.table, x.from);
    OthersKeepFk(s1, post, x.table, x.to);
  }

  /** The steps after the tables': indexes, foreign keys and the tracker. */
  function LaterSteps(r: Renames): seq<Step> { IndexSteps(r) + FkSteps(r) + [TrackerStep(r)] }

  lemma LaterAt(r: Renames, i: nat)
    requires i < |LaterSteps(r)|
    ensures i < |r.indexes| ==>
      LaterSteps(r)[i] == MoveIndex(r.indexes[i].table, r.indexes[i].oldName, r.indexes[i].newName)
    ensures |r.indexes| <= i < |r.indexes| + |r.foreignKeys| ==>
      var f := r.foreignKeys[i - |r.indexes|]; LaterSteps(r)[i] == MoveFk(f.table, f.oldName, f.newName, f.definition)
    ensures |r.indexes| + |r.foreignKeys| <= i ==> LaterSteps(r)[i] == TrackerStep(r)
  {}

  lemma TablesThenLater(s: Tables, r: Renames)
    ensures RunSteps(s, AllSteps(r)) == RunSteps(RunSteps(s, TableSteps(r)), LaterSteps(r))
  {
    assert AllSteps(r) == TableSteps(r) + LaterSteps(r);
    RunStepsConcat(s, TableSteps(r), LaterSteps(r));
  }

  /** Index `i` of a table `name` that ends up as the one it is listed for, with the new name free,
      is there under its new name only, as it was, after any number of attempts and one more. */
  lemma IndexGetsNewName(s: Tables, r: Renames, dones: seq<nat>, i: nat, name: string)
    requires Proper(r) && Valid(r, dones) && OldTrackerOnly(s, r) && i < |r.indexes| && name in s
    requires var x := r.indexes[i];
      && Destination(s, TableSteps(r), name) == x.table && x.table != r.oldTracker && x.table != r.newTracker
      && x.oldName in s[name].indexes && x.newName !in s[name].indexes
    requires forall j :: 0 <= j < |r.indexes| && j != i && r.indexes[j].table == r.indexes[i].table ==>
      r.indexes[j].oldName != r.indexes[i].oldName && r.indexes[j].newName != r.indexes[i].newName
    ensures var x, end := r.indexes[i], Renamed(Attempts(s, r, dones), r);
      && x.table in end && x.oldName !in end[x.table].indexes
      && x.newName in end[x.table].indexes && end[x.table].indexes[x.newName] == s[name].indexes[x.oldName]
  {
    var x, steps, s1 := r.indexes[i], LaterSteps(r), RunSteps(s, TableSteps(r));
    ManyCrashes(s, r, dones);
    TablesFollow(s, TableSteps(r), name);
    TablesThenLater(s, r);
    LaterAt(r, i);
    assert x in r.indexes;
    forall j | 0 <= j < |steps| && j != i
      ensures SparesIndex(steps[j], x.table, x.oldName) && SparesIndex(steps[j], x.table, x.newName)
    {
      LaterAt(r, j);
      if j < |r.indexes| {
        assert r.indexes[j] in r.indexes;
      }
    }
    IndexMoved(s1, steps, i);
  }

  /** Likewise a foreign key, which is made anew with its listed definition. */
  lemma ForeignKeyGetsNewName(s: Tables, r: Renames, dones: seq<nat>, i: nat, name: string)
    requires Proper(r) && Valid(r, dones) && OldTrackerOnly(s, r) && i < |r.foreignKeys| && name in s
    requires var x := r.foreignKeys[i];
      && Destination(s, TableSteps(r), name) == x.table && x.table != r.oldTracker && x.table != r.newTracker
      && x.oldName in s[name].foreignKeys && x.newName !in s[name].foreignKeys
    requires forall j :: 0 <= j < |r.foreignKeys| && j != i && r.foreignKeys[j].table == r.foreignKeys[i].table ==>
      r.foreignKeys[j].oldName != r.foreignKeys[i].oldName && r.foreignKeys[j].newName != r.foreignKeys[i].newName
    ensures var x, end := r.foreignKeys[i], Renamed(Attempts(s, r, dones), r);
      && x.table in end && x.oldName !in end[x.table].foreignKeys
      && x.newName in end[x.table].foreignKeys && end[x.table].foreignKeys[x.newName] == x.definition
  {
    var x, steps, s1 := r.foreignKeys[i], LaterSteps(r), RunSteps(s, TableSteps(r));
    var k := |r.indexes| + i;
    ManyCrashes(s, r, dones);
    TablesFollow(s, TableSteps(r), name);
    TablesThenLater(s, r);
    LaterAt(r, k);
    assert x in r.foreignKeys;
    forall j | 0 <= j < |steps| && j != k
      ensures SparesFk(steps[j], x.table, x.oldName) && SparesFk(steps[j], x.table, x.newName)
    {
      LaterAt(r, j);
      if |r.indexes| <= j < |r.indexes| + |r.foreignKeys| {
        assert r.foreignKeys[j - |r.indexes|] in r.foreignKeys;
      }
    }
    FkMoved(s1, steps, k);
  }

  // ----- the runner ------------------------------------------------------------------------------------

  /** The statements a rename takes. */
  function StatementsFor(s: Tables, r: Renames): nat
  {
    if r.oldTracker !in s then 0 else Cost(s, AllSteps(r))
  }

  lemma {:induction false} CostConcat(s: Tables, a: seq<Step>, b: seq<Step>)
    ensures Cost(s, a + b) == Cost(s, a) + Cost(RunSteps(s, a), b)
    decreases a
  {
    if a == [] {
      assert a + b == b;
    } else {
      assert (a + b)[1..] == a[1..] + b;
      CostConcat(Do(s, a[0]), a[1..], b);
    }
  }

  lemma LastCost(s: Tables, steps: seq<Step>, step: Step)
    ensures Cost(s, steps + [step]) == Cost(s, steps) + if Enabled(RunSteps(s, steps), step) then 1 else 0
  {
    CostConcat(s, steps, [step]);
    assert [step][1..] == [];
  }

  lemma OneListMore(s: Tables, a: seq<Step>, b: seq<Step>, done: nat)
    requires done <= |b|
    ensures RunSteps(s, a + b[..done]) == RunSteps(RunSteps(s, a), b[..done])
  {
    RunStepsConcat(s, a, b[..done]);
  }

  class SchemaDatabase {
    var tables: Tables

    constructor (tables: Tables)
      ensures this.tables == tables
    {
      this.tables := tables;
    }

    /** A guarded rename; `left` counts the statements until the server or the client dies. */
    method Guarded(step: Step, left: nat) returns (crashed: bool, left': nat)
      modifies this
      ensures tables == if crashed then old(tables) else Do(old(tables), step)
      ensures crashed <==> left == 0 && Enabled(old(tables), step)
      ensures !crashed ==> left' == if Enabled(old(tables), step) then left - 1 else left
    {
      crashed, left' := false, left;
      if Enabled(tables, step) {
        if left == 0 {
          return true, 0;
        }
        left' := left - 1;
        tables := Do(tables, step);
      }
    }

    method RunList(steps: seq<Step>, left: nat) returns (crashed: bool, left': nat, ghost done: nat)
      modifies this
      ensures done <= |steps| && (!crashed ==> done == |steps|) && tables == RunSteps(old(tables), steps[..done])
      ensures crashed <==> left < Cost(old(tables), steps)
      ensures !crashed ==> left' == left - Cost(old(tables), steps)
    {
      crashed, left', done := false, left, 0;
      assert steps[0..] == steps;
      for i := 0 to |steps|
        invariant done == i && tables == RunSteps(old(tables), steps[..i])
        invariant left' <= left && Cost(old(tables), steps) == left - left' + Cost(tables, steps[i..])
      {
        assert steps[i..][1..] == steps[i + 1..];
        crashed, left' := Guarded(steps[i], left');
        if crashed {
          return;
        }
        RunStepsSnoc(old(tables), steps[..i], steps[i]);
        assert steps[..i] + [steps[i]] == steps[..i + 1];
        done := done + 1;
      }
    }

    /** `apply_renames`: the tables, then the indexes, then the foreign keys, and the tracker last. */
    method ApplyRenames(r: Renames, left: nat) returns (completed: bool, left': nat, ghost done: nat)
      modifies this
      ensures done <= |AllSteps(r)| && tables == Attempt(old(tables), r, done)
      ensures completed <==> left >= StatementsFor(old(tables), r)
      ensures completed ==> tables == Renamed(old(tables), r) && left' == left - StatementsFor(old(tables), r)
    {
      if r.oldTracker !in tables {
        return true, left, 0;
      }
      ghost var before := tables;
      var crashed;
      crashed, left', done := RunOwn(r, left);
      assert AllSteps(r)[..done] == OwnSteps(r)[..done];
      LastCost(before, OwnSteps(r), TrackerStep(r));
      if crashed {
        return false, left', done;
      }
      assert OwnSteps(r)[..done] == OwnSteps(r);
      crashed, left' := Guarded(TrackerStep(r), left');
      RunStepsSnoc(before, OwnSteps(r), TrackerStep(r));
      if crashed {
        return false, left', done;
      }
      done := done + 1;
      assert AllSteps(r)[..done] == AllSteps(r);
      completed := true;
    }

    method RunOwn(r: Renames, left: nat) returns (crashed: bool, left': nat, ghost done: nat)
      modifies this
      ensures done <= |OwnSteps(r)| && (!crashed ==> done == |OwnSteps(r)|)
        && tables == RunSteps(old(tables), OwnSteps(r)[..done])
      ensures crashed <==> left < Cost(old(tables), OwnSteps(r))
      ensures !crashed ==> left' == left - Cost(old(tables), OwnSteps(r))
    {
      ghost var before, two := tables, TableSteps(r) + IndexSteps(r);
      CostConcat(before, TableSteps(r), IndexSteps(r));
      CostConcat(before, two, FkSteps(r));
      crashed, left', done := RunList(TableSteps(r), left);
      assert TableSteps(r)[..done] == OwnSteps(r)[..done];
      if !crashed {
        assert TableSteps(r)[..done] == TableSteps(r);
        ghost var some;
        crashed, left', some := RunList(IndexSteps(r), left');
        OneListMore(before, TableSteps(r), IndexSteps(r), some);
        done := done + some;
        assert TableSteps(r) + IndexSteps(r)[..some] == OwnSteps(r)[..done];
        if !crashed {
          assert IndexSteps(r)[..some] == IndexSteps(r);
          crashed, left', some := RunList(FkSteps(r), left');
          OneListMore(before, two, FkSteps(r), some);
          done := done + some;
          assert two + FkSteps(r)[..some] == OwnSteps(r)[..done];
        }
      }
    }

    /** The rename, then CREATE TABLE IF NOT EXISTS for the new tracker, one more statement: at no
        crash do both trackers exist. */
    method PrepareTracker(r: Renames, left: nat) returns (completed: bool)
      requires Proper(r) && !(r.oldTracker in tables && r.newTracker in tables)
      modifies this
      ensures !(r.oldTracker in tables && r.newTracker in tables)
      ensures completed <==> left > StatementsFor(old(tables), r)
      ensures completed ==> r.newTracker in tables
      ensures completed && r.oldTracker in old(tables) ==> tables == Renamed(old(tables), r)
    {
      ghost var done;
      var left';
      completed, left', done := ApplyRenames(r, left);
      if r.oldTracker in old(tables) {
        AttemptKeepsOneTracker(old(tables), r, done);
        AttemptKeepsOneTracker(old(tables), r, |AllSteps(r)|);
        assert AllSteps(r)[..|AllSteps(r)|] == AllSteps(r);
      }
      completed := completed && left' > 0;
      if completed && r.newTracker !in tables {
        tables := tables[r.newTracker := Table([], map[], map[])];
      }
    }
  }
}

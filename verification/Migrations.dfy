/** The MySQL migration runner. DDL commits by itself, so a crash leaves some statements applied;
    guarded steps make the replay come out the same, whether or not the version rows kept up. */
module Migrations {
  import opened Base

  /** Columns, indexes, foreign keys and primary keys, as independent named objects. */
  datatype Object = Column(table: string, name: string) | Index(table: string, name: string)
    | ForeignKey(table: string, name: string) | PrimaryKey(table: string)

  type Definition = string
  type Schema = map<Object, Definition>

  /** The guarded steps: adding skips what exists, dropping skips what does not. */
  datatype Step = Add(target: Object, definition: Definition) | Drop(target: Object)

  type Migration = seq<Step>

  function RunStep(s: Schema, step: Step): Schema
  {
    match step
    case Add(o, d) => if o in s then s else s[o := d]
    case Drop(o) => s - {o}
  }

  /** What the guard looks up. */
  predicate Needed(s: Schema, step: Step)
  {
    if step.Add? then step.target !in s else step.target in s
  }

  /** How many of the steps act, each with one statement. */
  function Cost(s: Schema, steps: seq<Step>): nat
    decreases steps
  {
    if steps == [] then 0 else (if Needed(s, steps[0]) then 1 else 0) + Cost(RunStep(s, steps[0]), steps[1..])
  }

  /** The statements of some migrations: their steps', and the insert of each version row. */
  function StatementsFor(s: Schema, ms: seq<Migration>): nat
    decreases ms
  {
    if ms == [] then 0 else Cost(s, ms[0]) + 1 + StatementsFor(RunSteps(s, ms[0]), ms[1..])
  }

  function RunSteps(s: Schema, steps: seq<Step>): Schema
    decreases steps
  {
    if steps == [] then s else RunSteps(RunStep(s, steps[0]), steps[1..])
  }

  // ----- what a list of steps does to one object -------------------------------------------------

  /** Whatever was there, the object ends up as `value`; or what was there stays, and only nothing
      becomes `value`. */
  datatype Effect = Sets(value: Option<Definition>) | Fills(value: Option<Definition>)

  function Lookup(s: Schema, o: Object): Option<Definition> { if o in s then Some(s[o]) else None }

  function Affect(e: Effect, before: Option<Definition>): Option<Definition>
  {
    if e.Fills? && before.Some? then before else e.value
  }

  function Or(a: Option<Definition>, b: Option<Definition>): Option<Definition> { if a.Some? then a else b }

  function EffectOf(steps: seq<Step>, o: Object): Effect
    decreases steps
  {
    if steps == [] then Fills(None)
    else
      var n := |steps| - 1;
      var before, last := EffectOf(steps[..n], o), steps[n];
      if last.target != o then before
      else if last.Drop? then Sets(None)
      else if before.Sets? then Sets(Or(before.value, Some(last.definition)))
      else Fills(Or(before.value, Some(last.definition)))
  }

  lemma {:induction false} RunStepsConcat(s: Schema, a: seq<Step>, b: seq<Step>)
    ensures RunSteps(s, a + b) == RunSteps(RunSteps(s, a), b)
    decreases a
  {
    if a == [] {
      assert a + b == b;
    } else {
      assert (a + b)[1..] == a[1..] + b;
      RunStepsConcat(RunStep(s, a[0]), a[1..], b);
    }
  }

  lemma RunStepsSnoc(s: Schema, a: seq<Step>, step: Step)
    ensures RunSteps(s, a + [step]) == RunStep(RunSteps(s, a), step)
  {
    RunStepsConcat(s, a, [step]);
    assert [step][1..] == [];
  }

  lemma {:induction false} StepsAffect(s: Schema, steps: seq<Step>, o: Object)
    ensures Lookup(RunSteps(s, steps), o) == Affect(EffectOf(steps, o), Lookup(s, o))
    decreases steps
  {
    if steps != [] {
      var n := |steps| - 1;
      StepsAffect(s, steps[..n], o);
      RunStepsSnoc(s, steps[..n], steps[n]);
      assert steps == steps[..n] + [steps[n]];
    }
  }

  lemma SameLookups(a: Schema, b: Schema)
    requires forall o :: Lookup(a, o) == Lookup(b, o)
    ensures a == b
  {
    forall o ensures o in a <==> o in b {
      assert Lookup(a, o) == Lookup(b, o);
    }
    forall o | o in a ensures a[o] == b[o] {
      assert Lookup(a, o) == Lookup(b, o);
    }
  }

  /** Running a list of guarded steps again changes nothing. */
  lemma StepsTwice(s: Schema, steps: seq<Step>)
    ensures RunSteps(RunSteps(s, steps), steps) == RunSteps(s, steps)
  {
    var once := RunSteps(s, steps);
    forall o ensures Lookup(RunSteps(once, steps), o) == Lookup(once, o) {
      StepsAffect(s, steps, o);
      StepsAffect(once, steps, o);
    }
    SameLookups(RunSteps(once, steps), once);
  }

  /** Whatever prefix was already applied, replaying from any point within it ends in the schema of
      an uninterrupted run. */
  lemma ReplayEndsTheSame(s: Schema, steps: seq<Step>, from: nat, done: nat)
    requires from <= done <= |steps|
    ensures RunSteps(RunSteps(s, steps[..done]), steps[from..]) == RunSteps(s, steps)
  {
    var first, again, rest := steps[..from], steps[from..done], steps[done..];
    assert steps[..done] == first + again && steps[from..] == again + rest && steps == steps[..done] + rest;
    var mid := RunSteps(s, first);
    RunStepsConcat(s, first, again);
    RunStepsConcat(RunSteps(mid, again), again, rest);
    StepsTwice(mid, again);
    RunStepsConcat(s, steps[..done], rest);
  }

  /** The last step on an object decides: dropped, it is gone; added, it is there, with the step's
      definition unless one was there already. */
  lemma LastStepDecides(s: Schema, steps: seq<Step>, i: nat)
    requires i < |steps| && forall j :: i < j < |steps| ==> steps[j].target != steps[i].target
    ensures var o, before, after := steps[i].target, RunSteps(s, steps[..i]), RunSteps(s, steps);
      if steps[i].Drop? then o !in after
      else o in after && after[o] == if o in before then before[o] else steps[i].definition
  {
    var o, rest := steps[i].target, steps[i + 1..];
    assert steps == steps[..i] + [steps[i]] + rest;
    RunStepsConcat(s, steps[..i] + [steps[i]], rest);
    RunStepsSnoc(s, steps[..i], steps[i]);
    assert forall j :: 0 <= j < |rest| ==> rest[j] == steps[i + 1 + j];
    OthersKeep(RunSteps(s, steps[..i] + [steps[i]]), rest, o);
  }

  lemma {:induction false} OthersKeep(s: Schema, steps: seq<Step>, o: Object)
    requires forall j :: 0 <= j < |steps| ==> steps[j].target != o
    ensures Lookup(RunSteps(s, steps), o) == Lookup(s, o)
    decreases steps
  {
    if steps != [] {
      assert forall j :: 0 <= j < |steps[1..]| ==> steps[1..][j] == steps[j + 1];
      OthersKeep(RunStep(s, steps[0]), steps[1..], o);
    }
  }

  // ----- versions --------------------------------------------------------------------------------

  function AllSteps(ms: seq<Migration>): seq<Step>
    decreases ms
  {
    if ms == [] then [] else AllSteps(ms[..|ms| - 1]) + ms[|ms| - 1]
  }

  function Applied(ms: seq<Migration>, version: nat): nat { if version <= |ms| then version else |ms| }

  /** The steps a run starting at a version still has to take. */
  function StepsDone(ms: seq<Migration>, version: nat): nat { |AllSteps(ms[..Applied(ms, version)])| }

  lemma {:induction false} StepsBefore(ms: seq<Migration>, v: nat)
    requires v <= |ms|
    ensures |AllSteps(ms[..v])| <= |AllSteps(ms)| && AllSteps(ms)[..|AllSteps(ms[..v])|] == AllSteps(ms[..v])
    decreases |ms| - v
  {
    if v < |ms| {
      StepsBefore(ms, v + 1);
      assert ms[..v + 1][..v] == ms[..v] && ms[..v + 1][v] == ms[v];
    } else {
      assert ms[..v] == ms;
    }
  }

  /** The committed state: the schema, and the highest version row. */
  datatype Progress = Progress(schema: Schema, version: nat)

  /** Where every run that completes from here ends. */
  function Destination(ms: seq<Migration>, p: Progress): Schema
  {
    StepsBefore(ms, Applied(ms, p.version));
    RunSteps(p.schema, AllSteps(ms)[StepsDone(ms, p.version)..])
  }

  /** An attempt that got as far as some step before it crashed; version rows may lag behind the
      steps, never lead. */
  ghost predicate Crashed(ms: seq<Migration>, p: Progress, p': Progress)
  {
    exists reached: nat :: Reaches(ms, p, p', reached)
  }

  ghost predicate Reaches(ms: seq<Migration>, p: Progress, p': Progress, reached: nat)
  {
    StepsBefore(ms, Applied(ms, p.version));
    && StepsDone(ms, p.version) <= StepsDone(ms, p'.version) <= reached <= |AllSteps(ms)|
    && p'.schema == RunSteps(p.schema, AllSteps(ms)[StepsDone(ms, p.version)..reached])
  }

  /** A crash does not change where the next complete run ends. */
  lemma CrashKeepsDestination(ms: seq<Migration>, p: Progress, p': Progress)
    requires Crashed(ms, p, p')
    ensures Destination(ms, p') == Destination(ms, p)
  {
    var reached: nat :| Reaches(ms, p, p', reached);
    StepsBefore(ms, Applied(ms, p.version));
    StepsBefore(ms, Applied(ms, p'.version));
    var a, b := StepsDone(ms, p.version), StepsDone(ms, p'.version);
    SlicesOf(AllSteps(ms), a, b, reached);
    ReplayEndsTheSame(p.schema, AllSteps(ms)[a..], b - a, reached - a);
  }

  lemma SlicesOf(steps: seq<Step>, a: nat, b: nat, reached: nat)
    requires a <= b <= reached <= |steps|
    ensures steps[a..][..reached - a] == steps[a..reached] && steps[a..][b - a..] == steps[b..]
  {}

  /** Any number of crashes, each at any statement. */
  ghost predicate Crashes(ms: seq<Migration>, history: seq<Progress>)
  {
    history != [] && forall i :: 0 <= i < |history| - 1 ==> Crashed(ms, history[i], history[i + 1])
  }

  /** However often it crashed on the way, the run that completes gives the schema of one
      uninterrupted run, and a further run gives it again, even with any or all of the version rows
      inserted since the first attempt lost. */
  lemma {:induction false} CrashesDoNotMatter(ms: seq<Migration>, history: seq<Progress>)
    requires Crashes(ms, history)
    ensures var end := Destination(ms, history[|history| - 1]);
      && end == Destination(ms, history[0])
      && (history[0].version == 0 ==> end == RunSteps(history[0].schema, AllSteps(ms)))
      && Destination(ms, Progress(end, |ms|)) == end
      && (forall v: nat :: v >= history[0].version ==> Destination(ms, Progress(end, v)) == end)
    decreases |history|
  {
    assert AllSteps(ms[..0]) == [] && AllSteps(ms)[0..] == AllSteps(ms);
    assert ms[..|ms|] == ms && AllSteps(ms)[|AllSteps(ms)|..] == [];
    if |history| > 1 {
      var n := |history| - 1;
      CrashesDoNotMatter(ms, history[..n]);
      CrashKeepsDestination(ms, history[n - 1], history[n]);
    }
    forall v: nat | v >= history[0].version
      ensures Destination(ms, Progress(Destination(ms, history[0]), v)) == Destination(ms, history[0])
    {
      RunAgain(ms, history[0], v);
    }
  }

  /** A run from any version at or after the one a completed run started from changes nothing. */
  lemma RunAgain(ms: seq<Migration>, p: Progress, v: nat)
    requires v >= p.version
    ensures Destination(ms, Progress(Destination(ms, p), v)) == Destination(ms, p)
  {
    var a, b, all := StepsDone(ms, p.version), StepsDone(ms, v), AllSteps(ms);
    StepsDoneLater(ms, p.version, v);
    SlicesOf(all, a, b, |all|);
    RunRestAgain(p.schema, all[a..], b - a);
  }

  lemma RunRestAgain(s: Schema, steps: seq<Step>, from: nat)
    requires from <= |steps|
    ensures RunSteps(RunSteps(s, steps), steps[from..]) == RunSteps(s, steps)
  {
    ReplayEndsTheSame(s, steps, from, |steps|);
    assert steps[..|steps|] == steps;
  }

  lemma StepsDoneLater(ms: seq<Migration>, v: nat, w: nat)
    requires v <= w
    ensures StepsDone(ms, v) <= StepsDone(ms, w) <= |AllSteps(ms)|
  {
    var from, to := Applied(ms, v), Applied(ms, w);
    StepsBefore(ms, to);
    StepsBefore(ms[..to], from);
    assert ms[..to][..from] == ms[..from];
  }

  // ----- the runner ------------------------------------------------------------------------------

  /** A schema and the highest row of its version table. The runner's transaction ends with its
      first statement, the DDL that creates the version table, so each later statement, a step's
      DDL or the insert of a version row, commits by itself. */
  class MigrationDatabase {
    var schema: Schema
    var version: nat

    constructor (schema: Schema, version: nat)
      ensures this.schema == schema && this.version == version
    {
      this.schema, this.version := schema, version;
    }

    function Committed(): Progress
      reads this
    {
      Progress(schema, version)
    }

    /** `run_step`: the guard, then the DDL. `left` counts the statements until the server or the
        client dies. */
    method RunGuarded(step: Step, left: nat) returns (crashed: bool, left': nat)
      modifies this`schema
      ensures schema == if crashed then old(schema) else RunStep(old(schema), step)
      ensures crashed <==> left == 0 && Needed(old(schema), step)
      ensures !crashed ==> left' == if Needed(old(schema), step) then left - 1 else left
    {
      var needed := Needed(schema, step);
      crashed, left' := false, left;
      if needed {
        if left == 0 {
          return true, 0;
        }
        left' := left - 1;
        schema := if step.Add? then schema[step.target := step.definition] else schema - {step.target};
      } else if step.Drop? {
        assert schema - {step.target} == schema;
      }
    }

    /** The steps of one migration. */
    method RunMigration(m: Migration, left: nat, ghost before: Schema, ghost prefix: seq<Step>)
      returns (crashed: bool, left': nat, ghost ran: nat)
      requires schema == RunSteps(before, prefix)
      modifies this`schema
      ensures ran <= |m| && (!crashed ==> ran == |m|) && schema == RunSteps(before, prefix + m[..ran])
      ensures crashed <==> left < Cost(old(schema), m)
      ensures !crashed ==> left' == left - Cost(old(schema), m) && schema == RunSteps(old(schema), m)
    {
      crashed, left', ran := false, left, 0;
      assert prefix + m[..0] == prefix && m[0..] == m && m[..|m|] == m;
      for j := 0 to |m|
        invariant ran == j && schema == RunSteps(before, prefix + m[..j])
        invariant left' <= left && Cost(old(schema), m) == left - left' + Cost(schema, m[j..])
      {
        assert m[j..][1..] == m[j + 1..];
        crashed, left' := RunGuarded(m[j], left');
        if crashed {
          return;
        }
        RunStepsSnoc(before, prefix + m[..j], m[j]);
        assert prefix + m[..j] + [m[j]] == prefix + m[..j + 1];
        ran := ran + 1;
      }
      RunStepsConcat(before, prefix, m);
    }

    /** One migration and its version row. */
    method RunNext(ms: seq<Migration>, i: nat, left: nat, ghost start: Progress) returns (crashed: bool, left': nat)
      requires start.version <= i == version < |ms| && CaughtUp(ms, start, i, schema)
      modifies this
      ensures version == if crashed then i else i + 1
      ensures if crashed then Crashed(ms, start, Committed()) else CaughtUp(ms, start, i + 1, schema)
      ensures crashed <==> left <= Cost(old(schema), ms[i])
      ensures !crashed ==> left' == left - Cost(old(schema), ms[i]) - 1 && schema == RunSteps(old(schema), ms[i])
    {
      ghost var base, at, ran := StepsDone(ms, start.version), StepsDone(ms, i), 0;
      crashed, left', ran := RunMigration(ms[i], left, start.schema, AllSteps(ms)[base..at]);
      Midway(ms, start, i, ran, schema);
      if crashed || left' == 0 {
        return true, 0;
      }
      left' := left' - 1;
      version := i + 1;
    }

    /** `run_migrations_inner`, dying after `left` of the steps' statements and version inserts: it
        completes exactly when they are enough. Completed, it reaches the destination; dead, it
        leaves a crashed attempt behind, its version rows all there. */
    method RunMigrations(ms: seq<Migration>, left: nat) returns (completed: bool)
      modifies this
      ensures completed <==> left >= StatementsFor(old(schema), ms[Applied(ms, old(version))..])
      ensures completed ==> schema == Destination(ms, old(Committed()))
      ensures completed ==> version == if old(version) > |ms| then old(version) else |ms|
      ensures !completed ==> old(version) <= version < |ms| && Crashed(ms, old(Committed()), Committed())
    {
      ghost var start := Committed();
      var current, budget: nat := version, left;
      StartCaughtUp(ms, start);
      for i := 0 to |ms|
        invariant current == start.version
        invariant version == if i < current then current else i
        invariant CaughtUp(ms, start, version, schema)
        invariant budget <= left
        invariant StatementsFor(start.schema, ms[Applied(ms, start.version)..])
          == left - budget + StatementsFor(schema, ms[Applied(ms, version)..])
      {
        if i + 1 > current {
          assert ms[i..][1..] == ms[i + 1..];
          ghost var before, had := schema, budget;
          assert StatementsFor(before, ms[i..]) ==
            Cost(before, ms[i]) + 1 + StatementsFor(RunSteps(before, ms[i]), ms[i + 1..]);
          var crashed;
          crashed, budget := RunNext(ms, i, budget, start);
          if crashed {
            assert had < StatementsFor(before, ms[i..]);
            return false;
          }
        }
      }
      EndCaughtUp(ms, start, version, schema);
      completed := true;
    }
  }

  /** Every step up to a version was taken. */
  ghost predicate CaughtUp(ms: seq<Migration>, start: Progress, version: nat, schema: Schema)
  {
    && StepsDone(ms, start.version) <= StepsDone(ms, version) <= |AllSteps(ms)|
    && schema == RunSteps(start.schema, AllSteps(ms)[StepsDone(ms, start.version)..StepsDone(ms, version)])
  }

  lemma StartCaughtUp(ms: seq<Migration>, start: Progress)
    ensures CaughtUp(ms, start, start.version, start.schema)
  {
    StepsBefore(ms, Applied(ms, start.version));
    var base := StepsDone(ms, start.version);
    assert AllSteps(ms)[base..base] == [];
  }

  lemma EndCaughtUp(ms: seq<Migration>, start: Progress, version: nat, schema: Schema)
    requires CaughtUp(ms, start, version, schema) && version >= |ms|
    ensures schema == Destination(ms, start)
  {
    assert ms[..|ms|] == ms;
    var base := StepsDone(ms, start.version);
    assert AllSteps(ms)[base..|AllSteps(ms)|] == AllSteps(ms)[base..];
  }

  /** Part of the next migration done. */
  lemma Midway(ms: seq<Migration>, start: Progress, i: nat, ran: nat, schema: Schema)
    requires i < |ms| && ran <= |ms[i]| && StepsDone(ms, start.version) <= StepsDone(ms, i) <= |AllSteps(ms)|
    requires var all, at := AllSteps(ms), StepsDone(ms, i);
      schema == RunSteps(start.schema, all[StepsDone(ms, start.version)..at] + ms[i][..ran])
    ensures Crashed(ms, start, Progress(schema, i))
    ensures ran == |ms[i]| ==> CaughtUp(ms, start, i + 1, schema)
  {
    var all, base, at := AllSteps(ms), StepsDone(ms, start.version), StepsDone(ms, i);
    NextMigration(ms, i);
    assert ms[i][..ran] == all[at..at + ran];
    assert all[base..at] + all[at..at + ran] == all[base..at + ran];
    assert Reaches(ms, start, Progress(schema, i), at + ran);
  }

  lemma NextMigration(ms: seq<Migration>, i: nat)
    requires i < |ms|
    ensures StepsDone(ms, i + 1) == StepsDone(ms, i) + |ms[i]| <= |AllSteps(ms)|
    ensures AllSteps(ms)[StepsDone(ms, i)..StepsDone(ms, i + 1)] == ms[i]
  {
    StepsBefore(ms, i);
    StepsBefore(ms, i + 1);
    assert ms[..i + 1][..i] == ms[..i] && ms[..i + 1][i] == ms[i];
    assert AllSteps(ms[..i + 1]) == AllSteps(ms[..i]) + ms[i];
    assert AllSteps(ms)[..StepsDone(ms, i + 1)][StepsDone(ms, i)..] == ms[i];
  }
}

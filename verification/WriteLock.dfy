/** The write-lock protocol: any number of instances of one tenant run their transactions
    statement by statement against shared tables with no isolation at all (every uncommitted
    change is in plain sight), and still every interleaving is serial, because an instance starts
    no transaction before `GET_LOCK` answered and releases the lock only after its commit or
    rollback. */
module WriteLock {
  import opened Base
  import opened TreeTables
  import opened LeafSelection
  import opened TreeOps
  import opened TreeInvariants
  import opened TreeProgram
  import opened TreeProgramOps

  type Instance = nat

  datatype Session =
    | Idle
    | Waiting(call: Call)
    | Locked(call: Call)
    | InTransaction(call: Call, undo: Tables, began: Time, inputs: seq<Input>, at: Point)
    | Over

  /** `done` lists the calls committed so far, in the order of their commits. */
  datatype State = State(tables: Tables, clock: Time, lock: Option<Instance>, sessions: map<Instance, Session>,
                         done: seq<Call>)

  datatype Action =
    | Ask(call: Call)
    | Acquire
    | GiveUp
    | Begin(now: Time)
    | Statement(input: Input)
    | Finish
    | Fail
    | ReleaseLock

  function At(s: State, i: Instance): Session { if i in s.sessions then s.sessions[i] else Idle }

  function Put(s: State, i: Instance, session: Session): State { s.(sessions := s.sessions[i := session]) }

  /** What an instance may do. Only taking the lock looks at the lock. */
  ghost predicate Can(fk: bool, u: User, z: Sizes, s: State, i: Instance, a: Action)
  {
    var me := At(s, i);
    match a
    case Ask(_) => me.Idle?
    case GiveUp => me.Waiting?
    case Acquire => me.Waiting? && s.lock.None?
    case Begin(now) => me.Locked? && s.clock <= now && NewRid(s.tables, u, me.call)
    case Statement(input) =>
      me.InTransaction? && s.clock <= input.now && !Execute(fk, u, z, s.tables, me.at, input).Stuck?
    case Finish => me.InTransaction? && me.at == Point([], Commit)
    case Fail => me.InTransaction? || me.Locked?
    case ReleaseLock => me.Over?
  }

  ghost function Next(fk: bool, u: User, z: Sizes, s: State, i: Instance, a: Action): State
    requires Can(fk, u, z, s, i, a)
  {
    var me := At(s, i);
    match a
    case Ask(call) => Put(s, i, Waiting(call))
    case GiveUp => Put(s, i, Idle)
    case Acquire => Put(s.(lock := Some(i)), i, Locked(me.call))
    case Begin(now) => Put(s.(clock := now), i, InTransaction(me.call, s.tables, now, [], Start(me.call)))
    case Statement(input) =>
      (match Execute(fk, u, z, s.tables, me.at, input)
       case Went(t', p) => Put(s.(tables := t', clock := input.now), i, me.(inputs := me.inputs + [input], at := p))
       case Aborted => Put(s.(tables := me.undo, clock := input.now), i, Over))
    case Finish => Put(s.(done := s.done + [me.call]), i, Over)
    case Fail => Put(if me.InTransaction? then s.(tables := me.undo) else s, i, Over)
    case ReleaseLock => Put(s.(lock := None), i, Idle)
  }

  datatype Move = Move(who: Instance, action: Action)

  ghost predicate Possible(fk: bool, u: User, z: Sizes, s: State, moves: seq<Move>)
    decreases moves
  {
    moves == [] ||
    (Can(fk, u, z, s, moves[0].who, moves[0].action)
     && Possible(fk, u, z, Next(fk, u, z, s, moves[0].who, moves[0].action), moves[1..]))
  }

  ghost function After(fk: bool, u: User, z: Sizes, s: State, moves: seq<Move>): State
    requires Possible(fk, u, z, s, moves)
    decreases moves
  {
    if moves == [] then s else After(fk, u, z, Next(fk, u, z, s, moves[0].who, moves[0].action), moves[1..])
  }

  function Initial(t: Tables, clock: Time): State { State(t, clock, None, map[], []) }

  // ----- what the protocol keeps -----------------------------------------------------------------

  /** The tables without the changes of an open transaction. */
  function Committed(s: State): Tables
  {
    if s.lock.Some? && At(s, s.lock.value).InTransaction? then At(s, s.lock.value).undo else s.tables
  }

  /** Whoever is past the lock holds it. */
  ghost predicate Exclusive(s: State)
  {
    forall i :: i in s.sessions && (s.sessions[i].Locked? || s.sessions[i].InTransaction? || s.sessions[i].Over?) ==>
      s.lock == Some(i)
  }

  /** An open transaction has run alone since it began. */
  ghost predicate RanAlone(fk: bool, u: User, z: Sizes, s: State, me: Session)
    requires me.InTransaction?
  {
    && RunAlone(fk, u, z, me.undo, Start(me.call), me.inputs) == Went(s.tables, me.at)
    && me.began <= s.clock && Within(me.inputs, me.began, s.clock)
    && NewRid(me.undo, u, me.call)
  }

  ghost predicate OpenRanAlone(fk: bool, u: User, z: Sizes, s: State)
  {
    s.lock.Some? && At(s, s.lock.value).InTransaction? ==> RanAlone(fk, u, z, s, At(s, s.lock.value))
  }

  /** The committed tables are those of a serial run of the calls done. */
  ghost predicate Serial(fk: bool, u: User, t: Tables, clock: Time, s: State, es: seq<Event>)
  {
    && ValidRun(fk, t, clock, es)
    && EndOf(clock, es) <= LastClock(s)
    && Committed(s) == Run(fk, t, es)
    && |es| == |s.done|
    && forall k :: 0 <= k < |es| ==> Asks(es[k].op, u, s.done[k])
  }

  function LastClock(s: State): Time
  {
    if s.lock.Some? && At(s, s.lock.value).InTransaction? then At(s, s.lock.value).began else s.clock
  }

  // ----- runs grow at the end ----------------------------------------------------------------------

  lemma {:induction false} RunSnoc(fk: bool, t: Tables, clock: Time, es: seq<Event>, e: Event)
    requires ValidRun(fk, t, clock, es) && EndOf(clock, es) <= e.from <= e.until
    requires TimesIn(e.op, e.from, e.until) && Enabled(Run(fk, t, es), e.op)
    ensures ValidRun(fk, t, clock, es + [e]) && EndOf(clock, es + [e]) == e.until
    ensures Run(fk, t, es + [e]) == Apply(fk, Run(fk, t, es), e.op)
    decreases es
  {
    if es == [] {
      assert es + [e] == [e];
    } else {
      assert (es + [e])[1..] == es[1..] + [e];
      RunSnoc(fk, Apply(fk, t, es[0].op), es[0].until, es[1..], e);
    }
  }

  lemma {:induction false} RunAloneSnoc(fk: bool, u: User, z: Sizes, t: Tables, p: Point, inputs: seq<Input>,
                                        input: Input)
    requires RunAlone(fk, u, z, t, p, inputs).Went?
    ensures var o := RunAlone(fk, u, z, t, p, inputs);
      RunAlone(fk, u, z, t, p, inputs + [input]) == Execute(fk, u, z, o.t, o.at, input)
    decreases inputs
  {
    if inputs == [] {
      assert inputs + [input] == [input];
      assert [input][1..] == [];
    } else {
      assert (inputs + [input])[1..] == inputs[1..] + [input];
      var o := Execute(fk, u, z, t, p, inputs[0]);
      RunAloneSnoc(fk, u, z, o.t, o.at, inputs[1..], input);
    }
  }

  // ----- one move ------------------------------------------------------------------------------------

  lemma MoveKeepsExclusive(fk: bool, u: User, z: Sizes, s: State, i: Instance, a: Action)
    requires Can(fk, u, z, s, i, a) && Exclusive(s)
    ensures Exclusive(Next(fk, u, z, s, i, a))
  {}

  /** An instance past the lock is the one the lock names. */
  lemma Holder(s: State, i: Instance)
    requires Exclusive(s) && (At(s, i).Locked? || At(s, i).InTransaction? || At(s, i).Over?)
    ensures s.lock == Some(i)
  {}

  lemma StatementKeepsAlone(fk: bool, u: User, z: Sizes, s: State, i: Instance, input: Input)
    requires Can(fk, u, z, s, i, Statement(input)) && Exclusive(s) && OpenRanAlone(fk, u, z, s)
    ensures OpenRanAlone(fk, u, z, Next(fk, u, z, s, i, Statement(input)))
    ensures Committed(Next(fk, u, z, s, i, Statement(input))) == Committed(s)
    ensures LastClock(Next(fk, u, z, s, i, Statement(input))) >= LastClock(s)
  {
    Holder(s, i);
    var me := At(s, i);
    RunAloneSnoc(fk, u, z, me.undo, Start(me.call), me.inputs, input);
  }

  lemma QuietMove(fk: bool, u: User, z: Sizes, s: State, i: Instance, a: Action)
    requires Can(fk, u, z, s, i, a) && Exclusive(s) && OpenRanAlone(fk, u, z, s)
    requires !a.Statement? && !a.Finish?
    ensures var s' := Next(fk, u, z, s, i, a);
      OpenRanAlone(fk, u, z, s') && Committed(s') == Committed(s) && LastClock(s') >= LastClock(s) && s'.done == s.done
  {
    if a.Begin? || a.Fail? || a.ReleaseLock? {
      Holder(s, i);
    }
  }

  lemma FinishIsAnEvent(fk: bool, u: User, z: Sizes, t: Tables, clock: Time, s: State, i: Instance, es: seq<Event>)
    returns (es': seq<Event>)
    requires Can(fk, u, z, s, i, Finish) && Exclusive(s) && OpenRanAlone(fk, u, z, s) && Serial(fk, u, t, clock, s, es)
    ensures Serial(fk, u, t, clock, Next(fk, u, z, s, i, Finish), es')
    ensures OpenRanAlone(fk, u, z, Next(fk, u, z, s, i, Finish))
  {
    Holder(s, i);
    var me := At(s, i);
    var op := ProgramDoes(fk, u, z, me.undo, me.call, me.inputs, me.began, s.clock, s.tables);
    var e := Event(op, me.began, s.clock);
    RunSnoc(fk, t, clock, es, e);
    es' := es + [e];
  }

  lemma MoveKeepsSerial(fk: bool, u: User, z: Sizes, t: Tables, clock: Time, s: State, i: Instance, a: Action,
                        es: seq<Event>)
    returns (es': seq<Event>)
    requires Can(fk, u, z, s, i, a) && Exclusive(s) && OpenRanAlone(fk, u, z, s) && Serial(fk, u, t, clock, s, es)
    ensures Serial(fk, u, t, clock, Next(fk, u, z, s, i, a), es')
    ensures OpenRanAlone(fk, u, z, Next(fk, u, z, s, i, a))
  {
    if a.Finish? {
      es' := FinishIsAnEvent(fk, u, z, t, clock, s, i, es);
    } else {
      es' := es;
      if a.Statement? {
        StatementKeepsAlone(fk, u, z, s, i, a.input);
      } else {
        QuietMove(fk, u, z, s, i, a);
      }
    }
  }

  // ----- every interleaving ------------------------------------------------------------------------

  lemma {:induction false} MovesKeepSerial(fk: bool, u: User, z: Sizes, t: Tables, clock: Time, s: State,
                                           moves: seq<Move>, es: seq<Event>)
    returns (es': seq<Event>)
    requires Possible(fk, u, z, s, moves)
    requires Exclusive(s) && OpenRanAlone(fk, u, z, s) && Serial(fk, u, t, clock, s, es)
    ensures Serial(fk, u, t, clock, After(fk, u, z, s, moves), es') && Exclusive(After(fk, u, z, s, moves))
    decreases moves
  {
    if moves == [] {
      es' := es;
    } else {
      var i, a := moves[0].who, moves[0].action;
      MoveKeepsExclusive(fk, u, z, s, i, a);
      var es1 := MoveKeepsSerial(fk, u, z, t, clock, s, i, a, es);
      es' := MovesKeepSerial(fk, u, z, t, clock, Next(fk, u, z, s, i, a), moves[1..], es1);
    }
  }

  /** Every statement-level interleaving of locked operations, with any of them given up, failed,
      crashed or rolled back at any statement, leaves the committed tables as a serial run of the
      whole operations would, in the order of their commits. */
  lemma EveryInterleavingIsSerial(fk: bool, u: User, z: Sizes, t: Tables, clock: Time, moves: seq<Move>)
    returns (es: seq<Event>)
    requires Possible(fk, u, z, Initial(t, clock), moves)
    ensures var s := After(fk, u, z, Initial(t, clock), moves);
      && ValidRun(fk, t, clock, es)
      && Committed(s) == Run(fk, t, es)
      && |es| == |s.done|
      && (forall k :: 0 <= k < |es| ==> Asks(es[k].op, u, s.done[k]))
      && (s.lock.None? ==> s.tables == Run(fk, t, es))
  {
    es := MovesKeepSerial(fk, u, z, t, clock, Initial(t, clock), moves, []);
  }

  /** So what every run keeps, every interleaving keeps: chains owned and no reservation dangling,
      with foreign keys always, and without them as long as no holding reservation times out
      between the two clock readings of a committed refresh's cleanup. */
  lemma EveryInterleavingKeepsInv(fk: bool, u: User, z: Sizes, t: Tables, clock: Time, moves: seq<Move>)
    returns (es: seq<Event>)
    requires Possible(fk, u, z, Initial(t, clock), moves) && Inv(t, clock)
    ensures var s := After(fk, u, z, Initial(t, clock), moves);
      && Committed(s) == Run(fk, t, es) && |es| == |s.done|
      && (forall k :: 0 <= k < |es| ==> Asks(es[k].op, u, s.done[k]))
      && (fk || LinkedRun(fk, t, es) ==> ChainsOwned(Committed(s)) && forall v :: NoDangling(Committed(s), v))
  {
    es := EveryInterleavingIsSerial(fk, u, z, t, clock, moves);
    if fk {
      ForeignKeysLink(t, es);
    }
    if LinkedRun(fk, t, es) {
      RunKeepsInv(fk, t, clock, es);
      forall v ensures NoDangling(Run(fk, t, es), v) {
        InvMeansLinked(Run(fk, t, es), EndOf(clock, es), v);
      }
    }
  }
}

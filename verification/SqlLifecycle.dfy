/** Whole lives of a prepared statement: what sqlite3_step, sqlite3_data_count, sqlite3_reset
    and sqlite3_finalize answer, told from the calls made before. */
module SqlLifecycle {
  import opened SqlStatement
  import opened SqlCodes

  /** How the statement was prepared: with its text kept or not, how the connection reports
      codes, and how many parameters there are. */
  datatype Setting = Setting(v2: bool, extended: bool, nVar: nat)

  /** A call, with what it meets. */
  datatype Op =
    | DoStep(attempts: seq<Attempt>, recompiles: seq<bool>)
    | DoReadColumn // and its conversion runs out of memory
    | DoBind(i: int, v: Value)
    | DoExpire
    | DoReset(halting: Halting)

  /** A call and the code it returned. */
  datatype Event = Event(op: Op, rc: int)

  predicate PossibleOp(op: Op)
  {
    match op
    case DoStep(attempts, recompiles) =>
      |attempts| == 6 && |recompiles| == 5 && forall i :: 0 <= i < 6 ==> PossibleExecution(attempts[i].execution)
    case DoReset(h) => PossibleHalting(h)
    case _ => true
  }

  // ------------------------------------------------------------- told from the calls

  /** What the calls have left. */
  function KeptAfter(g: Setting, trace: seq<Event>): Kept
  {
    if trace == [] then NEW
    else
      var k := KeptAfter(g, trace[..|trace| - 1]);
      match trace[|trace| - 1].op
      case DoStep(attempts, recompiles) =>
        if |attempts| == 6 && |recompiles| == 5 then AfterStep(g.v2, g.extended, k, attempts, recompiles, 0).kept else k
      case DoReadColumn => k.(rc := 7)
      case DoBind(_, _) => k
      case DoExpire => k.(expired := true)
      case DoReset(_) => NEW.(expired := k.expired)
  }

  /** What a call returns after those of `trace`. */
  function Answer(g: Setting, trace: seq<Event>, op: Op): int
  {
    var k := KeptAfter(g, trace);
    match op
    case DoStep(attempts, recompiles) =>
      if |attempts| == 6 && |recompiles| == 5 then
        var answer := AfterStep(g.v2, g.extended, k, attempts, recompiles, 0);
        if g.v2 then answer.v2 else answer.legacy
      else 0
    case DoBind(i, _) => if !k.phase.Idle? then 21 else if !(1 <= i <= g.nVar) then 25 else 0
    case DoReset(h) => AfterReset(g.extended, k, h)
    case _ => 0
  }

  /** The error of the last step that ran, or of reading a column after it; OK if neither
      failed. A step on a statement that has ended does not run. */
  function LastError(g: Setting, trace: seq<Event>): int
  {
    if trace == [] then OK
    else
      var before := trace[..|trace| - 1];
      var e := trace[|trace| - 1];
      match e.op
      case DoStep(_, _) =>
        if KeptAfter(g, before).phase.Over? then LastError(g, before) else if e.rc == ROW || e.rc == DONE then OK else e.rc
      case DoReadColumn => NOMEM
      case DoReset(_) => OK
      case _ => LastError(g, before)
  }

  /** sqlite3_data_count is not zero: the last step returned ROW, or one before it did and
      every step since was refused or ended the statement for want of memory. */
  predicate HasRow(g: Setting, trace: seq<Event>)
  {
    trace != [] &&
    var before := trace[..|trace| - 1];
    var e := trace[|trace| - 1];
    match e.op
    case DoStep(attempts, _) =>
      var k := KeptAfter(g, before);
      e.rc == ROW || (HasRow(g, before) && (k.phase.Over? || k.rc == NOMEM || (attempts != [] && !attempts[0].safe)))
    case DoReset(_) => false
    case _ => HasRow(g, before)
  }

  /** The bindings: what the accepted calls bound, never undone. */
  function Bindings(trace: seq<Event>, vars: seq<Value>): (r: seq<Value>)
    ensures |r| == |vars|
  {
    if trace == [] then vars
    else
      var before, e := Bindings(trace[..|trace| - 1], vars), trace[|trace| - 1];
      match e.op
      case DoBind(i, v) => if e.rc == OK && 1 <= i <= |vars| then before[i - 1 := v] else before
      case _ => before
  }

  /** The machine is where the calls say. */
  ghost predicate Tells(g: Setting, trace: seq<Event>, m: Vm)
  {
    && Keeps(g.extended, m, KeptAfter(g, trace)) && (m.resultSet <==> HasRow(g, trace))
    && (m.rc != OK <==> LastError(g, trace) != OK) && (g.v2 ==> m.rc == LastError(g, trace))
  }

  /** What reset and finalize return: an error if and only if the last step that ran failed,
      a column was read without memory, or the commit they force fails; with v2 the very
      code of that step, unless the commit or the journal fails. */
  ghost predicate EndCode(g: Setting, trace: seq<Event>, h: Halting, rc: int)
  {
    && (rc != OK <==> LastError(g, trace) != OK || (KeptAfter(g, trace).phase.Active? && h.Fails()))
    && (g.v2 && !h.Fails() ==> rc == LastError(g, trace))
  }

  lemma OneMore(trace: seq<Event>, e: Event)
    ensures (trace + [e])[..|trace|] == trace && (trace + [e])[|trace|] == e
  {
  }

  // ------------------------------------------------------------------- single calls

  lemma StepTells(g: Setting, trace: seq<Event>, m: Vm, op: Op)
    requires op.DoStep? && PossibleOp(op) && Live(m) && Tells(g, trace, m)
    ensures
      var (m', r) := Retried(g.v2, g.extended, m, op.attempts, op.recompiles, 0);
      r == Answer(g, trace, op) && Tells(g, trace + [Event(op, r)], m')
  {
    hide Retried, Live, IsError, PossibleExecution, AfterStep;
    StepAnswers(g.v2, g.extended, m, KeptAfter(g, trace), op.attempts, op.recompiles, 0);
    RetriedFacts(g.v2, g.extended, m, op.attempts, op.recompiles, 0);
    if !g.v2 { LegacyResetGivesV2Code(g.extended, m, op.attempts, op.recompiles, Quiet); }
    OneMore(trace, Event(op, Retried(g.v2, g.extended, m, op.attempts, op.recompiles, 0).1));
  }

  lemma ResetTells(g: Setting, trace: seq<Event>, m: Vm, h: Halting)
    requires PossibleHalting(h) && Live(m) && Tells(g, trace, m)
    ensures
      var (m', rc) := ResetTo(g.extended, m, h);
      && rc == Answer(g, trace, DoReset(h)) && EndCode(g, trace, h, rc)
      && Tells(g, trace + [Event(DoReset(h), rc)], m')
  {
    ResetAnswers(g.extended, m, KeptAfter(g, trace), h);
    ResetReportsFailure(g.extended, m, h);
    ResetCode(g.extended, m, h);
    OneMore(trace, Event(DoReset(h), ResetTo(g.extended, m, h).1));
  }

  lemma ColumnTells(g: Setting, trace: seq<Event>, m: Vm)
    requires Live(m) && Tells(g, trace, m)
    ensures Tells(g, trace + [Event(DoReadColumn, 0)], m.(rc := NOMEM))
  {
    OneMore(trace, Event(DoReadColumn, 0));
  }

  /** A binding changes nothing but the parameters, the mark for recompilation only itself. */
  lemma QuietTells(g: Setting, trace: seq<Event>, e: Event, m: Vm)
    requires (e.op.DoBind? || e.op.DoExpire?) && Tells(g, trace, m)
    ensures Tells(g, trace + [e], if e.op.DoExpire? then m.(expired := true) else m)
  {
    OneMore(trace, e);
  }

  lemma BindPhase(g: Setting, trace: seq<Event>, m: Vm)
    requires Tells(g, trace, m)
    ensures KeptAfter(g, trace).phase.Idle? <==> m.magic == Run && m.pc < 0
  {
  }

  /** One call, on a statement that has met those of `trace`. */
  method Perform(db: Connection, s: Statement, op: Op, ghost trace: seq<Event>) returns (e: Event)
    requires db.Valid() && s in db.statements && PossibleOp(op)
    requires Tells(Setting(s.v2, db.extended, |s.aVar|), trace, s.vm)
    modifies db`active, db`stuck, s`aVar, db.statements`vm
    ensures db.Valid() && db.extended == old(db.extended) && db.statements == old(db.statements) && |s.aVar| == |old(s.aVar)|
    ensures
      var g := Setting(s.v2, db.extended, |s.aVar|);
      e == Event(op, Answer(g, trace, op)) && Tells(g, trace + [e], s.vm)
    ensures s.aVar == Bindings([e], old(s.aVar))
  {
    hide Live, Retried, ResetTo, HasRow, LastError, KeptAfter, Mask, Tells, Stepped, EndCode, AfterStep, AfterReset;
    ghost var m, g := s.vm, Setting(s.v2, db.extended, |s.aVar|);
    match op {
      case DoStep(attempts, recompiles) =>
        StepTells(g, trace, m, op);
        var r := db.Step(s, attempts, recompiles);
        e := Event(op, r);
      case DoReadColumn =>
        e := Event(op, 0);
        ColumnTells(g, trace, m);
        db.ReadColumn(s);
      case DoBind(i, v) =>
        var rc := s.Bind(i, v);
        e := Event(op, rc);
        QuietTells(g, trace, e, m);
        BindPhase(g, trace, m);
      case DoExpire =>
        db.ExpireAll();
        e := Event(op, 0);
        QuietTells(g, trace, e, m);
      case DoReset(h) =>
        ResetTells(g, trace, m, h);
        var rc := db.Reset(s, h);
        e := Event(op, rc);
    }
    assert [e][..0] == [];
  }

  // ------------------------------------------------------------------- whole lives

  /** sqlite3_data_count after each call, as the trace tells it. */
  ghost predicate CountsTold(g: Setting, counts: seq<nat>, trace: seq<Event>, nResColumn: nat)
  {
    && |counts| == |trace|
    && forall i :: 0 <= i < |trace| ==> counts[i] == if HasRow(g, trace[..i + 1]) then nResColumn else 0
  }

  ghost predicate AnswersTold(g: Setting, ops: seq<Op>, trace: seq<Event>)
  {
    && |trace| <= |ops|
    && forall i :: 0 <= i < |trace| ==> trace[i] == Event(ops[i], Answer(g, trace[..i], ops[i]))
  }

  lemma OneMoreTold(g: Setting, ops: seq<Op>, trace: seq<Event>, counts: seq<nat>, e: Event, n: nat, nResColumn: nat)
    requires |trace| < |ops| && AnswersTold(g, ops, trace) && CountsTold(g, counts, trace, nResColumn)
    requires e == Event(ops[|trace|], Answer(g, trace, ops[|trace|])) && n == if HasRow(g, trace + [e]) then nResColumn else 0
    ensures AnswersTold(g, ops, trace + [e]) && CountsTold(g, counts + [n], trace + [e], nResColumn)
  {
    hide Answer, HasRow;
    var t, c := trace + [e], counts + [n];
    forall i | 0 <= i < |t|
      ensures t[i] == Event(ops[i], Answer(g, t[..i], ops[i])) && c[i] == if HasRow(g, t[..i + 1]) then nResColumn else 0
    {
      if i < |trace| {
        assert t[..i] == trace[..i] && t[..i + 1] == trace[..i + 1];
      } else {
        assert t[..i] == trace && t[..i + 1] == t;
      }
    }
  }

  lemma BindingsMore(trace: seq<Event>, e: Event, vars: seq<Value>)
    ensures Bindings(trace + [e], vars) == Bindings([e], Bindings(trace, vars))
  {
    OneMore(trace, e);
    assert [e][..0] == [];
  }

  lemma FreshTells(g: Setting)
    ensures Tells(g, [], READY)
  {
  }

  lemma RowTold(g: Setting, trace: seq<Event>, m: Vm)
    requires Tells(g, trace, m)
    ensures m.resultSet <==> HasRow(g, trace)
  {
  }

  /** Any life of a statement, from sqlite3_prepare through any calls to sqlite3_finalize:
      every answer is the one that what the calls met determines. */
  method WholeLife(db: Connection, nResColumn: nat, v2: bool, nVar: nat, ops: seq<Op>, last: Halting)
    returns (trace: seq<Event>, counts: seq<nat>, rc: int, vars: seq<Value>)
    requires db.Valid() && !db.closed && PossibleHalting(last) && forall i :: 0 <= i < |ops| ==> PossibleOp(ops[i])
    modifies db, db.statements`vm
    ensures db.Valid() && db.statements == old(db.statements)
    ensures
      var g := Setting(v2, old(db.extended), nVar);
      && |trace| == |ops| && AnswersTold(g, ops, trace) && CountsTold(g, counts, trace, nResColumn)
      && rc == Answer(g, trace, DoReset(last)) && EndCode(g, trace, last, rc)
    ensures vars == Bindings(trace, seq(nVar, _ => Null))
  {
    var s := db.Prepare(nResColumn, v2, nVar);
    ghost var g := Setting(v2, db.extended, nVar);
    trace, counts := [], [];
    FreshTells(g);
    var i := 0;
    while i < |ops|
      invariant 0 <= i <= |ops| && |trace| == i && db.Valid() && s in db.statements && s.v2 == v2 && s.nResColumn == nResColumn
      invariant db.statements == old(db.statements) + {s} && fresh(s) && db.extended == g.extended
      invariant Tells(g, trace, s.vm) && |s.aVar| == nVar
      invariant AnswersTold(g, ops, trace) && CountsTold(g, counts, trace, nResColumn)
      invariant s.aVar == Bindings(trace, seq(nVar, _ => Null))
    {
      hide Tells, Answer, HasRow, Bindings, Connection.Valid, AnswersTold, CountsTold;
      var e := Perform(db, s, ops[i], trace);
      RowTold(g, trace + [e], s.vm);
      OneMoreTold(g, ops, trace, counts, e, s.DataCount(), nResColumn);
      BindingsMore(trace, e, seq(nVar, _ => Null));
      trace, counts := trace + [e], counts + [s.DataCount()];
      i := i + 1;
    }
    vars := s.aVar;
    ResetTells(g, trace, s.vm, last);
    rc := db.Finalize(s, last);
  }
}

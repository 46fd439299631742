/** The life of a prepared statement and its connection: step, reset, finalize, bind and
    close (vdbeapi.c, vdbeaux.c, main.c), for whatever the execution meets. */
module SqlStatement {

  const OK := 0
  const ERROR := 1
  const BUSY := 5
  const NOMEM := 7
  const INTERRUPT := 9
  const IOERR := 10
  const IOERR_BLOCKED := 2826
  const FULL := 13
  const SCHEMA := 17
  const CONSTRAINT := 19
  const MISUSE := 21
  const RANGE := 25
  const ROW := 100
  const DONE := 101

  datatype Magic = Run | Halt | Dead

  /** The state of a Vdbe: `resultSet` for pResultSet != NULL, `pc` below 0 before the
      first step, `orFail` for errorAction == OE_Fail. */
  datatype Vm = Vm(magic: Magic, pc: int, rc: int, expired: bool, resultSet: bool, orFail: bool)

  const READY := Vm(Run, -1, OK, false, false, false)

  /** What the transaction meets when a statement halts: a commit that is busy or fails, a
      statement journal that fails, or a journal that absorbs a blocked write. */
  datatype Halting = Quiet | CommitBusy | CommitFails(code: int) | JournalFails(code: int) | WriteUnblocked
  {
    predicate Fails() { CommitFails? || JournalFails? }
  }

  /** What executing the program meets, and the instruction it is at: a row, the final
      halt, a lock, a halt with an error (RAISE or a constraint), or any other error. */
  datatype Execution =
    | RowReady(at: int)
    | Finished(at: int, halting: Halting)
    | Blocked(at: int)
    | Raised(at: int, code: int, orFail: bool, halting: Halting)
    | Broken(code: int, halting: Halting)

  /** One call of sqlite3Step: whether the connection was free to use, and the execution. */
  datatype Attempt = Attempt(safe: bool, execution: Execution)

  /** An error code: not OK, and its primary part not one of the two successes. */
  predicate IsError(code: int)
  {
    code > 0 && code % 256 != 0 && code % 256 < ROW
  }

  /** The errors after which nothing is committed. */
  predicate IsSpecial(code: int)
  {
    code % 256 in {NOMEM, IOERR, INTERRUPT, FULL}
  }

  predicate PossibleHalting(h: Halting)
  {
    h.Fails() ==> IsError(h.code)
  }

  /** Address 0 holds neither a halt nor a lock. */
  predicate PossibleExecution(e: Execution)
  {
    match e
    case RowReady(at) => at > 0
    case Finished(at, h) => at > 0 && PossibleHalting(h)
    case Blocked(at) => at > 0
    case Raised(at, code, _, h) => at > 0 && IsError(code) && PossibleHalting(h)
    case Broken(code, h) => IsError(code) && PossibleHalting(h)
  }

  /** The states a prepared statement can be in between calls. */
  predicate Live(m: Vm)
  {
    && m.magic != Dead && m.pc >= -1 && (m.rc == OK || IsError(m.rc))
    && (m.resultSet ==> m.pc > 0) && (m.pc < 0 ==> !m.orFail)
    && (m.magic == Run ==> m.pc != 0)
    && (m.magic == Run ==> m.rc in {OK, BUSY, NOMEM, SCHEMA, MISUSE} || (m.orFail && !IsSpecial(m.rc)))
  }

  /** Codes as the connection reports them: extended or not. */
  function Mask(extended: bool, code: int): int
  {
    if extended then code else code % 256
  }

  // ------------------------------------------------------------------- functions

  predicate Running(m: Vm)
  {
    m.magic == Run && m.pc >= 0
  }

  /** Halting commits, when the transaction is this statement's own. */
  predicate Commits(m: Vm)
  {
    m.rc == OK || (m.orFail && !IsSpecial(m.rc))
  }

  /** The code of a failing commit or journal takes the place of the statement's. */
  predicate Overwrites(m: Vm, h: Halting)
  {
    && Running(m)
    && ((h.CommitFails? && Commits(m)) || (h.JournalFails? && (m.rc == OK || m.rc == CONSTRAINT)))
  }

  /** sqlite3VdbeHalt; false when it gives up on a busy commit. */
  function Halted(m: Vm, h: Halting): (Vm, bool)
  {
    if m.magic != Run then (m, true)
    else if m.pc < 0 then (m.(magic := Halt), true)
    else if h.CommitBusy? && Commits(m) then (m, false)
    else if Overwrites(m, h) then (m.(magic := Halt, rc := h.code), true)
    else if h.WriteUnblocked? && m.rc == IOERR_BLOCKED then (m.(magic := Halt, rc := BUSY), true)
    else (m.(magic := Halt), true)
  }

  /** sqlite3VdbeExec on a statement that has started. */
  function Executed(m: Vm, e: Execution): (Vm, int)
  {
    if m.rc == NOMEM then (Halted(m, Quiet).0, ERROR) // set while reading a column; pResultSet stays
    else
      var ready := m.(rc := OK, resultSet := false);
      match e
      case RowReady(at) => (ready.(resultSet := true, pc := at), ROW)
      case Finished(at, h) =>
        var (halted, done) := Halted(ready.(pc := at, orFail := false), h);
        if !done then (halted.(rc := BUSY), BUSY)
        else (halted, if halted.rc != OK then ERROR else DONE)
      case Blocked(at) => (ready.(pc := at, rc := BUSY), BUSY)
      case Raised(at, code, orFail, h) =>
        var (halted, done) := Halted(ready.(pc := at, rc := code, orFail := orFail), h);
        if !done then (halted.(rc := BUSY), BUSY) else (halted, ERROR)
      case Broken(code, h) => (Halted(ready.(rc := code), h).0, ERROR)
  }

  /** sqlite3Step; `v2` when the SQL text was kept. */
  function Stepped(v2: bool, extended: bool, m: Vm, a: Attempt): (Vm, int)
  {
    if m.magic != Run then (m, MISUSE)
    else if m.pc <= 0 && m.expired then
      var m' := m.(rc := if m.rc == OK then SCHEMA else m.rc);
      (m', if v2 then m'.rc else ERROR)
    else if !a.safe then (m.(rc := MISUSE), MISUSE)
    else
      var (done, r) := Executed(Started(m), a.execution);
      var m' := done.(rc := Mask(extended, done.rc));
      (m', if v2 && r < ROW then m'.rc else r)
  }

  function Started(m: Vm): Vm
  {
    if m.pc < 0 then m.(pc := 0) else m
  }

  /** sqlite3_reset; the code it returns is read before the machine is made ready. */
  function ResetTo(extended: bool, m: Vm, h: Halting): (Vm, int)
  {
    (READY.(expired := m.expired), Mask(extended, Halted(m, h).0.rc))
  }

  /** sqlite3_step from attempt `k` on: a v2 statement whose schema changed is compiled
      again and retried, at most five times. */
  function Retried(v2: bool, extended: bool, m: Vm, attempts: seq<Attempt>, recompiles: seq<bool>, k: nat): (Vm, int)
    requires |attempts| == 6 && |recompiles| == 5 && k <= 5
    decreases 5 - k
  {
    var (m', r) := Stepped(v2, extended, m, attempts[k]);
    if r == SCHEMA && k < 5 && v2 && recompiles[k] then Retried(v2, extended, READY, attempts, recompiles, k + 1)
    else (m', r)
  }

  // ------------------------------------------------------------------ what holds

  /** Halting a machine that runs changes its state and its code and nothing else. */
  lemma HaltedFacts(m: Vm, h: Halting)
    requires m.magic == Run && m.pc >= 0 && PossibleHalting(h) && (m.rc == OK || IsError(m.rc))
    ensures
      var (d, done) := Halted(m, h);
      && d == m.(magic := d.magic, rc := d.rc) && (d.rc == OK || IsError(d.rc))
      && (done ==> d.magic == Halt) && (!done ==> d == m && Commits(m))
      && (m.rc != OK ==> d.rc != OK) && (h.Quiet? ==> done && d.rc == m.rc)
  {
  }

  lemma ExecutedFacts(m: Vm, e: Execution)
    requires Live(m) && m.magic == Run && PossibleExecution(e)
    ensures
      var (d, r) := Executed(Started(m), e);
      && Live(d) && d.pc >= 0 && d.expired == m.expired
      && (r == ROW ==> d.rc == OK && d.magic == Run)
      && (r == DONE ==> d.rc == OK && d.magic == Halt)
      && (r == BUSY ==> d.rc == BUSY && d.magic == Run)
      && (r == ERROR ==> IsError(d.rc) && (d.magic == Halt || d.orFail))
      && (r == ROW || r == DONE || r == BUSY || r == ERROR)
      && (d.resultSet <==> r == ROW || (m.rc == NOMEM && m.resultSet))
      && (m.rc == NOMEM ==> d.rc == NOMEM && d.magic == Halt)
  {
    hide Halted, Overwrites;
    var s := Started(m);
    var ready := s.(rc := OK, resultSet := false);
    if m.rc == NOMEM {
      HaltedFacts(s, Quiet);
    } else {
      match e
      case RowReady(_) =>
      case Finished(at, h) => HaltedFacts(ready.(pc := at, orFail := false), h);
      case Blocked(_) =>
      case Raised(at, code, orFail, h) => HaltedFacts(ready.(pc := at, rc := code, orFail := orFail), h);
      case Broken(code, h) =>
        HaltedFacts(ready.(rc := code), h);
    }
  }

  /** A machine between calls stays one, and what a step returns says how it left it. */
  lemma SteppedIsLive(v2: bool, extended: bool, m: Vm, a: Attempt)
    requires Live(m) && PossibleExecution(a.execution)
    ensures
      var (m', r) := Stepped(v2, extended, m, a);
      && Live(m')
      && (r == ROW || r == DONE || IsError(r))
      && (m.magic == Run ==> (m'.rc == OK <==> r == ROW || r == DONE) && Mask(extended, m'.rc) == m'.rc)
      && (v2 && m.magic == Run && r != ROW && r != DONE ==> m'.rc == r)
      && (r == DONE ==> m'.magic == Halt) && (r == ROW ==> Running(m'))
      && (m.magic != Run ==> m' == m && r == MISUSE)
  {
    hide Executed;
    if m.magic == Run {
      ExecutedFacts(m, a.execution);
      MaskIsError(extended, Executed(Started(m), a.execution).0);
    }
  }

  /** Masking keeps a machine live and tells the same codes from OK. */
  lemma MaskIsError(extended: bool, m: Vm)
    requires Live(m)
    ensures Live(m.(rc := Mask(extended, m.rc))) && (Mask(extended, m.rc) == OK <==> m.rc == OK)
  {
  }

  lemma ResetCode(extended: bool, m: Vm, h: Halting)
    requires Live(m) && PossibleHalting(h)
    ensures ResetTo(extended, m, h).1 == Mask(extended, if Overwrites(m, h) then h.code else m.rc)
  {
  }

  /** One attempt with the legacy interface leaves what one with the new interface returns:
      resetting then gives that very code, unless the statement halted OR FAIL, its commit
      was busy, and the commit tried again by reset fails with another code. The only
      error this misses is a misuse, which both return at once. */
  lemma LegacyAttempt(extended: bool, m: Vm, a: Attempt, h: Halting)
    requires Live(m) && PossibleExecution(a.execution) && PossibleHalting(h)
    ensures
      var (m1, r1) := Stepped(false, extended, m, a);
      var (m2, r2) := Stepped(true, extended, m, a);
      && m1 == m2
      && (r1 != ROW && r1 != DONE ==> r1 == ERROR || r1 == BUSY || r1 == MISUSE)
      && (m.magic == Run && r1 != ROW && r1 != DONE ==>
            && IsError(r2) && (Overwrites(m1, h) ==> m1.orFail)
            && (ResetTo(extended, m1, h).1 == r2 <==> !Overwrites(m1, h) || Mask(extended, h.code) == r2))
      && (m.magic != Run ==> r1 == r2 == MISUSE)
  {
    hide Executed, Halted;
    SteppedIsLive(true, extended, m, a);
    if m.magic == Run {
      ExecutedFacts(m, a.execution);
      ResetCode(extended, Stepped(true, extended, m, a).0, h);
    }
  }

  /** Reset reports an error exactly when the last step that ran failed, or the commit it
      forces on an unfinished statement does. */
  lemma ResetReportsFailure(extended: bool, m: Vm, h: Halting)
    requires Live(m) && PossibleHalting(h)
    ensures ResetTo(extended, m, h).1 != OK <==> m.rc != OK || (Running(m) && h.Fails())
  {
  }

  /** So after a step that returned DONE or ROW reset returns OK unless that commit
      fails, and after an error of a step that ran it returns an error. */
  lemma ResetAfterStep(v2: bool, extended: bool, m: Vm, a: Attempt, h: Halting)
    requires Live(m) && PossibleExecution(a.execution) && PossibleHalting(h)
    ensures
      var (m', r) := Stepped(v2, extended, m, a);
      var code := ResetTo(extended, m', h).1;
      && (r == DONE ==> code == OK)
      && (r == ROW ==> (code == OK <==> !h.Fails()))
      && (r != ROW && r != DONE && m.magic == Run ==> code != OK)
      && (m.magic != Run ==> r == MISUSE && code == Mask(extended, m.rc))
  {
    hide Stepped;
    SteppedIsLive(v2, extended, m, a);
    ResetReportsFailure(extended, Stepped(v2, extended, m, a).0, h);
    ResetCode(extended, m, h);
  }

  /** The statement has row data after a step exactly when the step returned ROW, or it
      had data already and the step returned before looking at the program. */
  lemma DataAfterStep(v2: bool, extended: bool, m: Vm, a: Attempt)
    requires Live(m) && PossibleExecution(a.execution)
    ensures
      var (m', r) := Stepped(v2, extended, m, a);
      && (m'.resultSet <==> r == ROW || (m.resultSet && (m.magic != Run || !a.safe || m.rc == NOMEM)))
      && (m'.resultSet && r != ROW && m'.magic == Run ==> m'.rc == MISUSE)
  {
    hide Executed;
    if m.magic == Run { ExecutedFacts(m, a.execution); }
  }

  /** A failed conversion while a row is read, and then a step: data_count is not zero. */
  lemma StaleRowAfterFailedStep(at: int)
    requires at > 0
    ensures
      var m := Vm(Run, at, NOMEM, false, true, false);
      var (m', r) := Stepped(true, false, m, Attempt(true, Blocked(at)));
      Live(m) && r == NOMEM && m'.resultSet
  {
  }

  /** A step that starts or continues the program leaves it running or halted. */
  lemma StepCounts(v2: bool, extended: bool, m: Vm, a: Attempt)
    requires Live(m) && PossibleExecution(a.execution)
    ensures
      var (m', r) := Stepped(v2, extended, m, a);
      var runs := m.magic == Run && !(m.pc <= 0 && m.expired) && a.safe;
      && (runs ==> m'.pc >= 0 && m'.magic != Dead)
      && (!runs ==> Running(m') == Running(m) && m'.magic == m.magic)
  {
    hide Executed;
    if m.magic == Run { ExecutedFacts(m, a.execution); }
  }

  /** A schema error leaves nothing to commit and no row. */
  lemma SchemaError(extended: bool, m: Vm, a: Attempt)
    requires Live(m) && PossibleExecution(a.execution) && Stepped(true, extended, m, a).1 == SCHEMA
    ensures
      var m' := Stepped(true, extended, m, a).0;
      !m'.resultSet && m.magic == Run && (Running(m') ==> m'.orFail)
  {
    hide Executed;
    ExecutedFacts(m, a.execution);
  }

  /** The same of sqlite3_step as a whole, whatever attempt decides it. */
  lemma {:induction false} RetriedFacts(v2: bool, extended: bool, m: Vm, attempts: seq<Attempt>, recompiles: seq<bool>, k: nat)
    requires |attempts| == 6 && |recompiles| == 5 && k <= 5
    requires Live(m) && forall i :: 0 <= i < 6 ==> PossibleExecution(attempts[i].execution)
    ensures
      var (m', r) := Retried(v2, extended, m, attempts, recompiles, k);
      && Live(m')
      && (r == ROW || r == DONE || IsError(r))
      && (m.magic == Run ==> (m'.rc == OK <==> r == ROW || r == DONE) && Mask(extended, m'.rc) == m'.rc)
      && (v2 && m.magic == Run && r != ROW && r != DONE ==> m'.rc == r)
      && (m.magic != Run ==> m' == m && r == MISUSE)
      && (m'.resultSet <==> r == ROW || (m.resultSet && (m.magic != Run || !attempts[k].safe || m.rc == NOMEM)))
      && (m'.resultSet && r != ROW && m'.magic == Run ==> m'.rc == MISUSE)
      && (r == DONE ==> m'.magic == Halt) && (r == ROW ==> Running(m'))
    decreases 5 - k
  {
    hide Stepped, Live, IsError, PossibleExecution;
    SteppedIsLive(v2, extended, m, attempts[k]);
    DataAfterStep(v2, extended, m, attempts[k]);
    if Stepped(v2, extended, m, attempts[k]).1 == SCHEMA && k < 5 && v2 && recompiles[k] {
      SchemaError(extended, m, attempts[k]);
      ReadyIsLive();
      RetriedFacts(v2, extended, READY, attempts, recompiles, k + 1);
    }
  }

  /** sqlite3_step as a whole: a failing legacy step leaves the code the v2 step returns
      for reset to return, under the same condition, unless the v2 step compiles the
      statement again; the legacy code is then SQLITE_SCHEMA. */
  lemma LegacyResetGivesV2Code(extended: bool, m: Vm, attempts: seq<Attempt>, recompiles: seq<bool>, h: Halting)
    requires |attempts| == 6 && |recompiles| == 5 && PossibleHalting(h)
    requires Live(m) && forall i :: 0 <= i < 6 ==> PossibleExecution(attempts[i].execution)
    ensures
      var (m1, r1) := Retried(false, extended, m, attempts, recompiles, 0);
      var (m2, r2) := Retried(true, extended, m, attempts, recompiles, 0);
      var code := ResetTo(extended, m1, h).1;
      && (r1 != ROW && r1 != DONE ==> r1 == ERROR || r1 == BUSY || r1 == MISUSE)
      && (m.magic != Run ==> r1 == r2 == MISUSE)
      && (Overwrites(m1, h) && r1 != ROW ==> m1.orFail)
      && (m.magic == Run && r1 != ROW && r1 != DONE ==>
            if m1.rc == SCHEMA && recompiles[0] then !Overwrites(m1, h) ==> code == SCHEMA
            else code == r2 <==> !Overwrites(m1, h) || Mask(extended, h.code) == r2)
  {
    hide Stepped, ResetTo, PossibleExecution;
    LegacyAttempt(extended, m, attempts[0], h);
    SteppedIsLive(true, extended, m, attempts[0]);
    SteppedIsLive(false, extended, m, attempts[0]);
    ResetCode(extended, Stepped(true, extended, m, attempts[0]).0, h);
    if m.magic == Run && Stepped(true, extended, m, attempts[0]).1 == SCHEMA && recompiles[0] {
      assert Stepped(true, extended, m, attempts[0]).0.rc == SCHEMA;
    }
  }

  lemma ReadyIsLive()
    ensures Live(READY)
  {
  }

  // ------------------------------------------------------------- the connection

  datatype Value = Null | Bound(content: int)

  class Statement {
    const db: Connection
    const nResColumn: nat
    const v2: bool
    var vm: Vm
    var aVar: seq<Value>

    constructor (db: Connection, nResColumn: nat, v2: bool, nVar: nat)
      ensures this.db == db && this.nResColumn == nResColumn && this.v2 == v2
      ensures vm == READY && aVar == seq(nVar, _ => Null)
    {
      this.db, this.nResColumn, this.v2 := db, nResColumn, v2;
      vm := READY;
      aVar := seq(nVar, _ => Null);
    }

    /** sqlite3_data_count */
    function DataCount(): nat
      reads this
    {
      if vm.resultSet then nResColumn else 0
    }

    /** columnMallocFailure */
    method ColumnFailed()
      modifies `vm
      ensures vm == old(vm).(rc := NOMEM)
    {
      vm := vm.(rc := NOMEM);
    }

    /** sqlite3_bind_xxx: refused while the statement runs or has halted. */
    method Bind(i: int, v: Value) returns (rc: int)
      modifies this`aVar
      ensures rc == if vm.magic != Run || vm.pc >= 0 then MISUSE
                    else if !(1 <= i <= |old(aVar)|) then RANGE else OK
      ensures rc != OK ==> aVar == old(aVar)
      ensures rc == OK ==> aVar == old(aVar)[i - 1 := v]
    {
      if vm.magic != Run || vm.pc >= 0 {
        return MISUSE;
      }
      if i < 1 || i > |aVar| {
        return RANGE;
      }
      aVar := aVar[i - 1 := v];
      return OK;
    }
  }

  class Connection {
    var statements: set<Statement>
    var active: int
    var extended: bool
    var closed: bool
    /** Statements reset or finalized while their commit was busy. */
    ghost var stuck: nat

    constructor ()
      ensures Valid() && statements == {} && active == 0 && !closed && stuck == 0
    {
      statements, active, extended, closed, stuck := {}, 0, false, false, 0;
    }

    ghost function RunningSet(): set<Statement>
      reads this`statements, statements`vm
    {
      set s | s in statements && Running(s.vm)
    }

    /** The counter counts the running statements, and every stuck one for ever. */
    ghost predicate Valid()
      reads this, statements
    {
      && (forall s :: s in statements ==> s.db == this && Live(s.vm))
      && active == |RunningSet()| + stuck
    }

    /** sqlite3_prepare, when it succeeds. */
    method Prepare(nResColumn: nat, v2: bool, nVar: nat) returns (s: Statement)
      requires Valid() && !closed
      modifies this`statements
      ensures Valid() && fresh(s) && statements == old(statements) + {s}
      ensures s.v2 == v2 && s.nResColumn == nResColumn && s.aVar == seq(nVar, _ => Null)
      ensures s.vm == READY && s.DataCount() == 0
    {
      s := new Statement(this, nResColumn, v2, nVar);
      statements := statements + {s};
      assert RunningSet() == old(RunningSet());
    }

    /** One sqlite3Step. */
    method StepOnce(s: Statement, a: Attempt) returns (r: int)
      requires Valid() && s in statements && PossibleExecution(a.execution)
      modifies this`active, s`vm
      ensures Valid() && (s.vm, r) == Stepped(s.v2, extended, old(s.vm), a)
    {
      hide Stepped, Live, Executed;
      SteppedIsLive(s.v2, extended, s.vm, a);
      StepCounts(s.v2, extended, s.vm, a);
      var m := s.vm;
      var counted := Running(m);
      if m.magic == Run && !(m.pc <= 0 && m.expired) && a.safe && m.pc < 0 {
        active := active + 1;
        counted := true;
      }
      var vm;
      var next := Stepped(s.v2, extended, m, a);
      vm, r := next.0, next.1;
      if counted && vm.magic == Halt {
        active := active - 1;
      }
      SetVm(s, vm);
    }

    /** Replacing one machine changes the count by that machine only. */
    method SetVm(s: Statement, vm: Vm)
      requires s in statements && s.db == this && Live(vm)
      requires forall t :: t in statements ==> t.db == this && Live(t.vm)
      modifies s`vm
      ensures s.vm == vm && forall t :: t in statements ==> Live(t.vm)
      ensures |RunningSet()| == |old(RunningSet())| - (if Running(old(s.vm)) then 1 else 0) + if Running(vm) then 1 else 0
    {
      hide Live;
      ghost var others := RunningSet() - {s};
      assert RunningSet() == if Running(s.vm) then others + {s} else others;
      s.vm := vm;
      assert RunningSet() == if Running(vm) then others + {s} else others;
    }

    /** An sqlite3_column_xxx call whose conversion runs out of memory. */
    method ReadColumn(s: Statement)
      requires Valid() && s in statements
      modifies s`vm
      ensures Valid() && s.vm == old(s.vm).(rc := NOMEM)
    {
      ghost var before := RunningSet();
      s.ColumnFailed();
      assert RunningSet() == before;
    }

    /** sqlite3_reset: back to the start, the bindings kept. */
    method Reset(s: Statement, h: Halting) returns (rc: int)
      requires Valid() && s in statements && PossibleHalting(h)
      modifies this`active, this`stuck, s`vm
      ensures Valid() && (s.vm, rc) == ResetTo(extended, old(s.vm), h)
      ensures s.aVar == old(s.aVar) && s.DataCount() == 0 && !Running(s.vm)
      ensures stuck == old(stuck) + if !Halted(old(s.vm), h).1 then 1 else 0
    {
      var (halted, done) := Halted(s.vm, h);
      if done {
        if Running(s.vm) { active := active - 1; }
      } else {
        stuck := stuck + 1; // sqlite3VdbeHalt returned before the count was lowered
      }
      rc := Mask(extended, halted.rc);
      SetVm(s, READY.(expired := s.vm.expired));
    }

    /** sqlite3_finalize */
    method Finalize(s: Statement, h: Halting) returns (rc: int)
      requires Valid() && s in statements && PossibleHalting(h)
      modifies this`active, this`stuck, this`statements, s`vm
      ensures Valid() && statements == old(statements) - {s} && s.vm.magic == Dead
      ensures rc == ResetTo(extended, old(s.vm), h).1
    {
      rc := Reset(s, h);
      ghost var running := RunningSet();
      statements := statements - {s};
      s.vm := s.vm.(magic := Dead);
      assert RunningSet() == running;
    }

    /** sqlite3ExpirePreparedStatements */
    method ExpireAll()
      requires Valid()
      modifies statements`vm
      ensures Valid() && forall s :: s in statements ==> s.vm == old(s.vm).(expired := true)
    {
      ghost var before := RunningSet();
      forall s | s in statements {
        s.vm := s.vm.(expired := true);
      }
      assert RunningSet() == before;
    }

    /** sqlite3Reprepare and the reset after it: a new program, the same bindings. */
    method Recompile(s: Statement)
      requires Valid() && s in statements
      modifies this`active, this`stuck, s`vm
      ensures Valid() && s.vm == READY && s.aVar == old(s.aVar)
      ensures stuck == old(stuck)
    {
      var _ := Reset(s, Quiet);
      ghost var before := RunningSet();
      s.vm := s.vm.(expired := false);
      assert RunningSet() == before;
    }

    /** sqlite3_step: the last attempt decides what it returns and leaves. */
    method Step(s: Statement, attempts: seq<Attempt>, recompiles: seq<bool>) returns (r: int)
      requires Valid() && s in statements && |attempts| == 6 && |recompiles| == 5
      requires forall i :: 0 <= i < 6 ==> PossibleExecution(attempts[i].execution)
      modifies this`active, this`stuck, s`vm
      ensures Valid() && s.aVar == old(s.aVar) && stuck == old(stuck)
      ensures (s.vm, r) == Retried(s.v2, extended, old(s.vm), attempts, recompiles, 0)
    {
      hide Stepped;
      r := StepOnce(s, attempts[0]);
      var cnt := 0;
      while r == SCHEMA && cnt < 5 && s.v2 && recompiles[cnt]
        invariant 0 <= cnt <= 5 && Valid() && s in statements
        invariant s.aVar == old(s.aVar) && stuck == old(stuck)
        invariant Retried(s.v2, extended, old(s.vm), attempts, recompiles, 0) ==
          if r == SCHEMA && cnt < 5 && s.v2 && recompiles[cnt] then Retried(s.v2, extended, READY, attempts, recompiles, cnt + 1)
          else (s.vm, r)
        decreases 5 - cnt
      {
        Recompile(s);
        r := StepOnce(s, attempts[cnt + 1]);
        cnt := cnt + 1;
      }
    }

    /** sqlite3_close: with a statement left the connection stays open. */
    method Close() returns (rc: int)
      requires Valid() && !closed
      modifies this`closed
      ensures rc == if statements != {} then BUSY else OK
      ensures closed <==> rc == OK
      ensures Valid()
    {
      if statements != {} {
        return BUSY;
      }
      closed := true;
      return OK;
    }
  }
}

/** The codes sqlite3_step and sqlite3_reset return, told from what each execution meets and
    from the calls made before, without the machine of SqlStatement, and the machine against
    them. The numbers are those of sqlite3.h. */
module SqlCodes {
  import opened SqlStatement

  /** An error that OR FAIL lets commit: not one of memory (7), interrupt (9), input and
      output (10), or a full disk (13). */
  predicate Forgiven(code: int, orFail: bool)
  {
    orFail && code % 256 != 7 && code % 256 != 9 && code % 256 != 10 && code % 256 != 13
  }

  /** The code left when a program ends with `code`, 0 for none. The commit that fails takes
      its place if there is one to make, so does a statement journal that fails unless the
      error is other than a constraint (19), and a blocked write (2826) that the journal
      absorbed is no more than busy (5). */
  function Ending(code: int, orFail: bool, h: Halting): int
  {
    match h
    case Quiet => code
    case CommitBusy => if code == 0 || Forgiven(code, orFail) then 5 else code
    case CommitFails(other) => if code == 0 || Forgiven(code, orFail) then other else code
    case JournalFails(other) => if code == 0 || code == 19 then other else code
    case WriteUnblocked => if code == 2826 then 5 else code
  }

  /** What an execution comes to: a row (100), the end (101), or an error. For an error that
      no instruction raised, a busy commit goes unnoticed. */
  function Outcome(e: Execution, orFail: bool): int
  {
    match e
    case RowReady(_) => 100
    case Blocked(_) => 5
    case Finished(_, h) => if Ending(0, false, h) == 0 then 101 else Ending(0, false, h)
    case Raised(_, code, f, h) => Ending(code, f, h)
    case Broken(code, h) => if h.CommitBusy? then code else Ending(code, orFail, h)
  }

  /** The step is to be tried again: a lock, or a commit that is busy. */
  predicate Waits(e: Execution)
  {
    match e
    case RowReady(_) => false
    case Blocked(_) => true
    case Finished(_, h) => h.CommitBusy?
    case Raised(_, code, f, h) => h.CommitBusy? && Forgiven(code, f)
    case Broken(_, _) => false
  }

  /** The statement can go on: after a row, a wait, or an error whose commit was busy. */
  predicate GoesOn(e: Execution, orFail: bool)
  {
    e.RowReady? || Waits(e) || (e.Broken? && e.halting.CommitBusy? && Forgiven(e.code, orFail))
  }

  /** Not started, started and not ended, or ended. */
  datatype Phase = Idle | Active | Over

  /** What is left of the calls made so far: where the statement is, the code it keeps,
      whether its schema has expired, and whether it stopped OR FAIL. */
  datatype Kept = Kept(phase: Phase, rc: int, expired: bool, orFail: bool)

  const NEW := Kept(Idle, 0, false, false)

  /** What a step answers with the new interface and with the old one, and what it leaves. */
  datatype Answered = Answered(v2: int, legacy: int, kept: Kept)

  /** One attempt: refused as misuse (21), a changed schema (17) or a column that could not
      be read for want of memory (7) found first, or executed. */
  function AfterAttempt(extended: bool, k: Kept, a: Attempt): Answered
  {
    if k.phase.Over? then Answered(21, 21, k)
    else if k.phase.Idle? && k.expired then
      var code := if k.rc == 0 then 17 else k.rc;
      Answered(code, 1, k.(rc := code))
    else if !a.safe then Answered(21, 21, k.(rc := 21))
    else if k.rc == 7 then Answered(7, 1, k.(phase := Over))
    else AfterExecution(extended, k, a.execution)
  }

  function AfterExecution(extended: bool, k: Kept, e: Execution): Answered
  {
    var out := Outcome(e, k.orFail);
    var orFail := match e case Finished(_, _) => false case Raised(_, _, f, _) => f case _ => k.orFail;
    var phase := if GoesOn(e, k.orFail) then Active else Over;
    if out == 100 || out == 101 then Answered(out, out, Kept(phase, 0, k.expired, orFail))
    else
      var code := if extended then out else out % 256;
      Answered(code, if Waits(e) then 5 else 1, Kept(phase, code, k.expired, orFail))
  }

  /** sqlite3_step: a new-style step that finds its schema changed starts over with a new
      program, at most five times. */
  function AfterStep(v2: bool, extended: bool, k: Kept, attempts: seq<Attempt>, recompiles: seq<bool>, i: nat): Answered
    requires |attempts| == 6 && |recompiles| == 5 && i <= 5
    decreases 5 - i
  {
    var first := AfterAttempt(extended, k, attempts[i]);
    if v2 && first.v2 == 17 && i < 5 && recompiles[i] then AfterStep(v2, extended, NEW, attempts, recompiles, i + 1)
    else first
  }

  /** sqlite3_reset: the code that was kept, unless ending an unfinished statement gives
      another one; a busy commit it forces goes unnoticed. */
  function AfterReset(extended: bool, k: Kept, h: Halting): int
  {
    var code := if k.phase.Active? && !h.CommitBusy? then Ending(k.rc, k.orFail, h) else k.rc;
    if extended then code else code % 256
  }

  // ------------------------------------------------------- the machine against them

  function PhaseOf(m: Vm): Phase
  {
    if m.magic != Run then Over else if m.pc < 0 then Idle else Active
  }

  /** The machine is where the calls left it. */
  predicate Keeps(extended: bool, m: Vm, k: Kept)
  {
    k == Kept(PhaseOf(m), m.rc, m.expired, m.orFail) && Mask(extended, m.rc) == m.rc
  }

  lemma HaltingEnds(m: Vm, h: Halting)
    requires m.magic == Run && m.pc >= 0 && PossibleHalting(h) && (m.rc == OK || IsError(m.rc))
    ensures
      var (d, done) := Halted(m, h);
      && (!done <==> h.CommitBusy? && (m.rc == 0 || Forgiven(m.rc, m.orFail)))
      && (done ==> d == m.(magic := Halt, rc := Ending(m.rc, m.orFail, h)))
      && (!done ==> d == m && Ending(m.rc, m.orFail, h) == 5)
  {
  }

  lemma NothingToEnd(m: Vm, h: Halting)
    requires m.magic != Run || m.pc < 0
    ensures Halted(m, h).0.rc == m.rc
  {
  }

  lemma EndingIsError(code: int, orFail: bool, h: Halting)
    requires PossibleHalting(h) && (code == 0 || IsError(code))
    ensures
      var end := Ending(code, orFail, h);
      && (end == 0 || IsError(end)) && (code != 0 ==> end != 0)
      && (h.CommitBusy? && code == 0 ==> end == 5)
      && (h.CommitBusy? && !Forgiven(code, orFail) && code != 0 ==> end == code)
  {
  }

  /** The machine's execution and the one told from outside. */
  predicate Agree(extended: bool, m: Vm, k: Kept, e: Execution)
  {
    var (d, r) := Executed(Started(m), e);
    var answer := AfterExecution(extended, k, e);
    && Keeps(extended, d.(rc := Mask(extended, d.rc)), answer.kept)
    && r == answer.legacy && answer.v2 == if r < ROW then Mask(extended, d.rc) else r
  }

  lemma Executes(extended: bool, m: Vm, k: Kept, e: Execution)
    requires Live(m) && k == Kept(PhaseOf(m), m.rc, m.expired, m.orFail) && m.magic == Run && m.rc != NOMEM
    requires PossibleExecution(e)
    ensures Agree(extended, m, k, e)
  {
    hide Agree, Live;
    match e
    case RowReady(_) => Proceeds(extended, m, k, e);
    case Blocked(_) => Proceeds(extended, m, k, e);
    case Finished(at, h) => Finishes(extended, m, k, at, h);
    case Raised(at, code, orFail, h) => Raises(extended, m, k, at, code, orFail, h);
    case Broken(code, h) => Breaks(extended, m, k, code, h);
  }

  lemma Proceeds(extended: bool, m: Vm, k: Kept, e: Execution)
    requires Live(m) && k == Kept(PhaseOf(m), m.rc, m.expired, m.orFail) && m.magic == Run && m.rc != NOMEM
    requires PossibleExecution(e) && (e.RowReady? || e.Blocked?)
    ensures Agree(extended, m, k, e)
  {
  }

  lemma Finishes(extended: bool, m: Vm, k: Kept, at: int, h: Halting)
    requires Live(m) && k == Kept(PhaseOf(m), m.rc, m.expired, m.orFail) && m.magic == Run && m.rc != NOMEM
    requires at > 0 && PossibleHalting(h)
    ensures Agree(extended, m, k, Finished(at, h))
  {
    hide Halted, Ending;
    EndingIsError(0, false, h);
    HaltingEnds(Started(m).(rc := OK, resultSet := false, pc := at, orFail := false), h);
  }

  lemma Raises(extended: bool, m: Vm, k: Kept, at: int, code: int, orFail: bool, h: Halting)
    requires Live(m) && k == Kept(PhaseOf(m), m.rc, m.expired, m.orFail) && m.magic == Run && m.rc != NOMEM
    requires at > 0 && IsError(code) && PossibleHalting(h)
    ensures Agree(extended, m, k, Raised(at, code, orFail, h))
  {
    hide Halted, Ending, Forgiven;
    EndingIsError(code, orFail, h);
    HaltingEnds(Started(m).(rc := code, resultSet := false, pc := at, orFail := orFail), h);
  }

  lemma Breaks(extended: bool, m: Vm, k: Kept, code: int, h: Halting)
    requires Live(m) && k == Kept(PhaseOf(m), m.rc, m.expired, m.orFail) && m.magic == Run && m.rc != NOMEM
    requires IsError(code) && PossibleHalting(h)
    ensures Agree(extended, m, k, Broken(code, h))
  {
    hide Halted, Ending, Forgiven;
    EndingIsError(code, m.orFail, h);
    HaltingEnds(Started(m).(rc := code, resultSet := false), h);
  }

  /** What sqlite3Step answers and leaves is what its execution and the calls before it say. */
  lemma AttemptAnswers(v2: bool, extended: bool, m: Vm, k: Kept, a: Attempt)
    requires Live(m) && PossibleExecution(a.execution) && Keeps(extended, m, k)
    ensures
      var (m', r) := Stepped(v2, extended, m, a);
      var answer := AfterAttempt(extended, k, a);
      Keeps(extended, m', answer.kept) && r == if v2 then answer.v2 else answer.legacy
  {
    hide Executed, AfterExecution;
    if m.magic == Run && !(m.pc <= 0 && m.expired) && a.safe {
      if m.rc == NOMEM {
        ReadFailed(m, a.execution);
      } else {
        Executes(extended, m, k, a.execution);
      }
    }
  }

  lemma ReadFailed(m: Vm, e: Execution)
    requires Live(m) && m.magic == Run && m.rc == NOMEM
    ensures Executed(Started(m), e) == (Started(m).(magic := Halt), ERROR)
  {
  }

  /** The same of sqlite3_step as a whole. */
  lemma {:induction false} StepAnswers(v2: bool, extended: bool, m: Vm, k: Kept, attempts: seq<Attempt>, recompiles: seq<bool>, i: nat)
    requires |attempts| == 6 && |recompiles| == 5 && i <= 5
    requires Live(m) && Keeps(extended, m, k) && forall j :: 0 <= j < 6 ==> PossibleExecution(attempts[j].execution)
    ensures
      var (m', r) := Retried(v2, extended, m, attempts, recompiles, i);
      var answer := AfterStep(v2, extended, k, attempts, recompiles, i);
      Keeps(extended, m', answer.kept) && r == if v2 then answer.v2 else answer.legacy
    decreases 5 - i
  {
    hide Stepped, AfterAttempt, Live, PossibleExecution, Keeps;
    AttemptAnswers(v2, extended, m, k, attempts[i]);
    if v2 && AfterAttempt(extended, k, attempts[i]).v2 == 17 && i < 5 && recompiles[i] {
      NewIsReady(extended);
      StepAnswers(v2, extended, READY, NEW, attempts, recompiles, i + 1);
    }
  }

  lemma NewIsReady(extended: bool)
    ensures Live(READY) && Keeps(extended, READY, NEW)
  {
  }

  lemma ResetAnswers(extended: bool, m: Vm, k: Kept, h: Halting)
    requires Live(m) && PossibleHalting(h) && Keeps(extended, m, k)
    ensures
      var (m', rc) := ResetTo(extended, m, h);
      rc == AfterReset(extended, k, h) && Keeps(extended, m', NEW.(expired := k.expired))
  {
    hide Halted, Ending;
    if m.magic == Run && m.pc >= 0 {
      HaltingEnds(m, h);
      EndingIsError(m.rc, m.orFail, h);
    } else {
      NothingToEnd(m, h);
    }
  }

  /** A new statement meets a full disk: the step says so with the new interface, and reset
      with either. */
  lemma FullDiskIsReported(v2: bool, extended: bool, h: Halting)
    requires PossibleHalting(h)
    ensures
      var (m, r) := Stepped(v2, extended, READY, Attempt(true, Broken(FULL, Quiet)));
      r == (if v2 then 13 else 1) && ResetTo(extended, m, h).1 == 13
  {
    NewIsReady(extended);
    var a := Attempt(true, Broken(FULL, Quiet));
    AttemptAnswers(v2, extended, READY, NEW, a);
    SteppedIsLive(v2, extended, READY, a);
    ResetAnswers(extended, Stepped(v2, extended, READY, a).0, AfterAttempt(extended, NEW, a).kept, h);
  }
}

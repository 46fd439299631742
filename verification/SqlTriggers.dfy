/** Trigger contexts: what OP_ContextPush, OP_ContextPop, OP_ResetCount and the change
    counters (vdbe.c, vdbeaux.c, trigger.c) make of last_insert_rowid, changes and
    total_changes. */
module SqlTriggers {
  import opened Options

  // ---------------------------------------------------------- what a statement does

  /** A row written by a statement: the rowid an INSERT reports, and whether the change is
      counted. */
  datatype Row = Row(rowid: Option<int>, counted: bool)

  /** What a statement does in order: rows, and triggers that fire. */
  datatype Events = Done | Write(row: Row, after: Events) | Fire(body: Body, after: Events)

  /** The INSERT, UPDATE and DELETE steps a trigger ran, to its end or to RAISE(IGNORE) in
      a SELECT step or in the middle of a counted one. */
  datatype Body = End | Ignored | IgnoredIn(part: Events) | Step(events: Events, rest: Body)

  /** Changes the statement itself makes; those of triggers have their own context. */
  function Direct(es: Events): int
  {
    match es
    case Done => 0
    case Write(row, after) => (if row.counted then 1 else 0) + Direct(after)
    case Fire(_, after) => Direct(after)
  }

  /** The rowid of the last insert the statement itself makes. */
  function LastInsert(es: Events, before: int): int
  {
    match es
    case Done => before
    case Write(row, after) => LastInsert(after, if row.rowid.Some? then row.rowid.value else before)
    case Fire(_, after) => LastInsert(after, before)
  }

  /** Changes of the completed steps of all triggers below. */
  function Nested(es: Events): int
  {
    match es
    case Done => 0
    case Write(_, after) => Nested(after)
    case Fire(body, after) => NestedIn(body) + Nested(after)
  }

  function NestedIn(b: Body): int
  {
    match b
    case End => 0
    case Ignored => 0
    case IgnoredIn(part) => Nested(part)
    case Step(events, rest) => Direct(events) + Nested(events) + NestedIn(rest)
  }

  /** Changes of steps RAISE(IGNORE) cut off. */
  function Lost(es: Events): int
  {
    match es
    case Done => 0
    case Write(_, after) => Lost(after)
    case Fire(body, after) => LostIn(body) + Lost(after)
  }

  function LostIn(b: Body): int
  {
    match b
    case End => 0
    case Ignored => 0
    case IgnoredIn(part) => Direct(part) + Lost(part)
    case Step(events, rest) => Lost(events) + LostIn(rest)
  }

  /** Every counted change, in any context. */
  function AllChanges(es: Events): int
  {
    match es
    case Done => 0
    case Write(row, after) => (if row.counted then 1 else 0) + AllChanges(after)
    case Fire(body, after) => AllChangesIn(body) + AllChanges(after)
  }

  function AllChangesIn(b: Body): int
  {
    match b
    case End => 0
    case Ignored => 0
    case IgnoredIn(part) => AllChanges(part)
    case Step(events, rest) => AllChanges(events) + AllChangesIn(rest)
  }

  /** The direct changes of the step completed last, in whatever context, or `before`. */
  function Reported(es: Events, before: int): int
  {
    match es
    case Done => before
    case Write(_, after) => Reported(after, before)
    case Fire(body, after) => Reported(after, ReportedIn(body, before))
  }

  function ReportedIn(b: Body, before: int): int
  {
    match b
    case End => before
    case Ignored => before
    case IgnoredIn(part) => Reported(part, before)
    case Step(events, rest) => ReportedIn(rest, Direct(events))
  }

  // ------------------------------------------------------------------- the machine

  datatype Instr = ContextPush | ContextPop | ResetCount(report: bool) | WriteRow(row: Row)

  /** codeTriggerProgram and the row instructions around it, as one run executes them. */
  function Code(es: Events): seq<Instr>
    decreases es, 0
  {
    match es
    case Done => []
    case Write(row, after) => [WriteRow(row)] + Code(after)
    case Fire(body, after) => [ContextPush] + CodeBody(body) + Code(after)
  }

  function CodeBody(b: Body): seq<Instr>
    decreases b, 1
  {
    CodeSteps(b) + [ContextPop]
  }

  function CodeSteps(b: Body): seq<Instr>
    decreases b, 0
  {
    match b
    case End => []
    case Ignored => []
    case IgnoredIn(part) => [ResetCount(false)] + Code(part)
    case Step(events, rest) => [ResetCount(false)] + Code(events) + [ResetCount(true)] + CodeSteps(rest)
  }

  /** The connection's fields, the statement's counter, and its context stack. */
  datatype State = State(lastRowid: int, nChange: int, nTotalChange: int, count: int, stack: seq<Context>)

  datatype Context = Context(lastRowid: int, count: int)

  function Next(s: State, i: Instr): State
    requires i.ContextPop? ==> s.stack != []
  {
    match i
    case ContextPush => s.(stack := s.stack + [Context(s.lastRowid, s.count)])
    case ContextPop =>
      var top := s.stack[|s.stack| - 1];
      s.(lastRowid := top.lastRowid, count := top.count, stack := s.stack[..|s.stack| - 1])
    case ResetCount(report) =>
      if report then s.(nChange := s.count, nTotalChange := s.nTotalChange + s.count, count := 0) else s.(count := 0)
    case WriteRow(row) =>
      s.(count := s.count + if row.counted then 1 else 0,
         lastRowid := if row.rowid.Some? then row.rowid.value else s.lastRowid)
  }

  /** No pop finds the stack empty. */
  predicate Balanced(code: seq<Instr>, depth: nat)
  {
    code != [] ==>
      match code[0]
      case ContextPush => Balanced(code[1..], depth + 1)
      case ContextPop => depth > 0 && Balanced(code[1..], depth - 1)
      case _ => Balanced(code[1..], depth)
  }

  function Runs(s: State, code: seq<Instr>): State
    requires Balanced(code, |s.stack|)
    decreases |code|
  {
    if code == [] then s else Runs(Next(s, code[0]), code[1..])
  }

  lemma {:induction false} RunsAppend(s: State, a: seq<Instr>, b: seq<Instr>)
    requires Balanced(a, |s.stack|) && Balanced(b, |Runs(s, a).stack|)
    ensures Balanced(a + b, |s.stack|) && Runs(s, a + b) == Runs(Runs(s, a), b)
    decreases |a|
  {
    if a == [] {
      assert a + b == b;
    } else {
      assert (a + b)[1..] == a[1..] + b && (a + b)[0] == a[0];
      RunsAppend(Next(s, a[0]), a[1..], b);
    }
  }

  lemma RunsOne(s: State, i: Instr)
    requires i.ContextPop? ==> s.stack != []
    ensures Balanced([i], |s.stack|) && Runs(s, [i]) == Next(s, i)
  {
    assert [i][1..] == [];
  }

  // ------------------------------------------------------- contexts form a stack

  /** A statement's code leaves the stack as it was; the last rowid and the counter move
      with the statement's own rows only, the totals with the steps of its triggers. */
  lemma {:induction false} Effect(s: State, es: Events)
    ensures Balanced(Code(es), |s.stack|)
    ensures Runs(s, Code(es)) ==
      State(LastInsert(es, s.lastRowid), Reported(es, s.nChange), s.nTotalChange + Nested(es), s.count + Direct(es), s.stack)
    decreases es, 0
  {
    match es
    case Done =>
    case Write(row, after) =>
      RunsOne(s, WriteRow(row));
      Effect(Next(s, WriteRow(row)), after);
      RunsAppend(s, [WriteRow(row)], Code(after));
    case Fire(body, after) =>
      RunsOne(s, ContextPush);
      var inside := Next(s, ContextPush);
      BodyEffect(inside, body);
      RunsAppend(s, [ContextPush], CodeBody(body));
      var outside := Runs(s, [ContextPush] + CodeBody(body));
      Effect(outside, after);
      RunsAppend(s, [ContextPush] + CodeBody(body), Code(after));
  }

  /** A trigger ends in the context it was fired from, whatever it did. */
  lemma BodyEffect(s: State, b: Body)
    requires s.stack != []
    ensures Balanced(CodeBody(b), |s.stack|)
    ensures
      var n := |s.stack| - 1;
      Runs(s, CodeBody(b)) == State(s.stack[n].lastRowid, ReportedIn(b, s.nChange), s.nTotalChange + NestedIn(b), s.stack[n].count, s.stack[..n])
    decreases b, 1
  {
    StepsEffect(s, b);
    RunsOne(Runs(s, CodeSteps(b)), ContextPop);
    RunsAppend(s, CodeSteps(b), [ContextPop]);
  }

  lemma {:induction false} StepsEffect(s: State, b: Body)
    ensures Balanced(CodeSteps(b), |s.stack|)
    ensures
      var t := Runs(s, CodeSteps(b));
      t.stack == s.stack && t.nChange == ReportedIn(b, s.nChange) && t.nTotalChange == s.nTotalChange + NestedIn(b)
    decreases b, 0
  {
    hide Balanced;
    match b
    case End => NoCode(s);
    case Ignored => NoCode(s);
    case IgnoredIn(part) => StartedStep(s, part);
    case Step(events, rest) =>
      StartedStep(s, events);
      var code := [ResetCount(false)] + Code(events);
      var t := Runs(s, code);
      RunsOne(t, ResetCount(true));
      RunsAppend(s, code, [ResetCount(true)]);
      StepsEffect(Next(t, ResetCount(true)), rest);
      RunsAppend(s, code + [ResetCount(true)], CodeSteps(rest));
  }

  lemma NoCode(s: State)
    ensures Balanced([], |s.stack|) && Runs(s, []) == s
  {
  }

  /** A step counts from zero. */
  lemma StartedStep(s: State, es: Events)
    ensures Balanced([ResetCount(false)] + Code(es), |s.stack|)
    ensures Runs(s, [ResetCount(false)] + Code(es)) ==
      State(LastInsert(es, s.lastRowid), Reported(es, s.nChange), s.nTotalChange + Nested(es), Direct(es), s.stack)
    decreases es, 1
  {
    hide Balanced, Runs, Code, Direct, Nested, Reported, LastInsert;
    RunsOne(s, ResetCount(false));
    var s1 := Next(s, ResetCount(false));
    Effect(s1, es);
    RunsAppend(s, [ResetCount(false)], Code(es));
  }

  /** Every change is counted in its own context, in a trigger's, or lost. */
  lemma {:induction false} NothingElse(es: Events)
    ensures AllChanges(es) == Direct(es) + Nested(es) + Lost(es)
    ensures Direct(es) >= 0 && Nested(es) >= 0 && Lost(es) >= 0
    decreases es, 0
  {
    match es
    case Done =>
    case Write(_, after) => NothingElse(after);
    case Fire(body, after) =>
      NothingElseIn(body);
      NothingElse(after);
  }

  lemma {:induction false} NothingElseIn(b: Body)
    ensures AllChangesIn(b) == NestedIn(b) + LostIn(b) && NestedIn(b) >= 0 && LostIn(b) >= 0
    decreases b, 0
  {
    match b
    case End =>
    case Ignored =>
    case IgnoredIn(part) => NothingElse(part);
    case Step(events, rest) =>
      NothingElse(events);
      NothingElseIn(rest);
  }

  // ------------------------------------------------------ when the total is exact

  /** The statement or step wrote no counted row of its own. */
  predicate WroteNothing(es: Events)
  {
    match es
    case Done => true
    case Write(row, after) => !row.counted && WroteNothing(after)
    case Fire(_, after) => WroteNothing(after)
  }

  /** Every step that RAISE(IGNORE) cut off, at any depth, had written no counted row. */
  predicate NothingCutOff(es: Events)
  {
    match es
    case Done => true
    case Write(_, after) => NothingCutOff(after)
    case Fire(body, after) => NothingCutOffIn(body) && NothingCutOff(after)
  }

  predicate NothingCutOffIn(b: Body)
  {
    match b
    case End => true
    case Ignored => true
    case IgnoredIn(part) => WroteNothing(part) && NothingCutOff(part)
    case Step(events, rest) => NothingCutOff(events) && NothingCutOffIn(rest)
  }

  lemma {:induction false} WroteNothingIsZero(es: Events)
    ensures WroteNothing(es) <==> Direct(es) == 0
    ensures Direct(es) >= 0
    decreases es
  {
    match es
    case Done =>
    case Write(_, after) => WroteNothingIsZero(after);
    case Fire(_, after) => WroteNothingIsZero(after);
  }

  lemma {:induction false} NothingLost(es: Events)
    ensures NothingCutOff(es) <==> Lost(es) == 0
    decreases es, 0
  {
    NothingElse(es);
    match es
    case Done =>
    case Write(_, after) => NothingLost(after);
    case Fire(body, after) =>
      NothingLostIn(body);
      NothingLost(after);
      LostIsNatural(body, after);
  }

  lemma LostIsNatural(body: Body, after: Events)
    ensures LostIn(body) >= 0 && Lost(after) >= 0
  {
    NothingElse(after);
    NothingElseIn(body);
  }

  lemma {:induction false} NothingLostIn(b: Body)
    ensures NothingCutOffIn(b) <==> LostIn(b) == 0
    decreases b, 0
  {
    match b
    case End =>
    case Ignored =>
    case IgnoredIn(part) =>
      NothingLost(part);
      WroteNothingIsZero(part);
      NothingElse(part);
    case Step(events, rest) =>
      NothingLost(events);
      NothingLostIn(rest);
      LostIsNatural(rest, events);
  }

  /** A completed statement adds exactly the counted changes of all its contexts to
      total_changes if and only if nothing counted was cut off. */
  lemma TotalIsExact(s: State, es: Events)
    requires s.count == 0
    ensures Balanced(Code(es), |s.stack|)
    ensures
      var t := Runs(s, Code(es));
      t.nTotalChange + t.count == s.nTotalChange + AllChanges(es) <==> NothingCutOff(es)
  {
    Effect(s, es);
    NothingElse(es);
    NothingLost(es);
  }

  /** A trigger's insert is cut off by RAISE(IGNORE) after its row is written: one change
      is made and none is counted. */
  lemma IgnoreLosesACount(s: State, rowid: int)
    requires s.count == 0
    ensures
      var es := Fire(IgnoredIn(Write(Row(Some(rowid), true), Done)), Done);
      && AllChanges(es) == 1 && Balanced(Code(es), |s.stack|)
      && var t := Runs(s, Code(es)); t.nTotalChange + t.count == s.nTotalChange
  {
    var part := Write(Row(Some(rowid), true), Done);
    var es := Fire(IgnoredIn(part), Done);
    Effect(s, es);
    assert AllChanges(part) == 1 && AllChangesIn(IgnoredIn(part)) == 1 && AllChanges(es) == 1 + AllChanges(Done);
    assert Nested(part) == 0 && Nested(es) == NestedIn(IgnoredIn(part)) + Nested(Done);
  }

  // ----------------------------------------------------------- in the middle of a run

  lemma {:induction false} Prefix(code: seq<Instr>, depth: nat, n: nat)
    requires Balanced(code, depth) && n <= |code|
    ensures Balanced(code[..n], depth)
    decreases n
  {
    if n > 0 {
      assert code[..n][1..] == code[1..][..n - 1] && code[..n][0] == code[0];
      match code[0]
      case ContextPush => Prefix(code[1..], depth + 1, n - 1);
      case ContextPop => Prefix(code[1..], depth - 1, n - 1);
      case _ => Prefix(code[1..], depth, n - 1);
    }
  }

  /** What a run has done so far: the last rowid inserted in the contexts that are open, if
      any, the counter, the changes reported in all, and those reported last. */
  datatype Tally = Tally(inserted: Option<int>, count: int, total: int, reported: int)

  function Or(o: Option<int>, other: int): int { if o.Some? then o.value else other }

  /** The tally after `k` instructions, from `v`. */
  function Upto(es: Events, k: nat, v: Tally): Tally
    requires k <= |Code(es)|
    decreases es, 0
  {
    match es
    case Done => v
    case Write(row, after) =>
      if k == 0 then v
      else
        var inserted := if row.rowid.Some? then row.rowid else v.inserted;
        Upto(after, k - 1, Tally(inserted, v.count + if row.counted then 1 else 0, v.total, v.reported))
    case Fire(body, after) =>
      if k == 0 then v
      else if k <= |CodeBody(body)| then UptoIn(body, k - 1, v)
      else Upto(after, k - 1 - |CodeBody(body)|, v.(total := v.total + NestedIn(body), reported := ReportedIn(body, v.reported)))
  }

  /** ... of a trigger that is still open. */
  function UptoIn(b: Body, k: nat, v: Tally): Tally
    requires k <= |CodeSteps(b)|
    decreases b, 0
  {
    if k == 0 then v
    else
      match b
      case End => v
      case Ignored => v
      case IgnoredIn(part) => Upto(part, k - 1, v.(count := 0))
      case Step(events, rest) =>
        if k <= 1 + |Code(events)| then Upto(events, k - 1, v.(count := 0))
        else
          var w := Upto(events, |Code(events)|, v.(count := 0));
          UptoIn(rest, k - 2 - |Code(events)|, Tally(w.inserted, 0, w.total + w.count, w.count))
  }

  predicate Shows(s: State, v: Tally, before: int)
  {
    s.count == v.count && s.nTotalChange == v.total && s.nChange == v.reported && s.lastRowid == Or(v.inserted, before)
  }

  /** The tally is what the machine's fields hold. */
  lemma {:induction false} TallyIsState(s: State, es: Events, k: nat, v: Tally, before: int)
    requires k <= |Code(es)| && Shows(s, v, before)
    ensures Balanced(Code(es)[..k], |s.stack|) && Shows(Runs(s, Code(es)[..k]), Upto(es, k, v), before)
    decreases es, 0
  {
    hide Balanced, Runs;
    match es
    case Done =>
      assert Code(es)[..k] == [];
      NoCode(s);
    case Write(row, after) =>
      if k == 0 {
        assert Code(es)[..k] == [];
        NoCode(s);
      } else {
        assert Code(es)[..k] == [WriteRow(row)] + Code(after)[..k - 1];
        RunsOne(s, WriteRow(row));
        var inserted := if row.rowid.Some? then row.rowid else v.inserted;
        TallyIsState(Next(s, WriteRow(row)), after, k - 1, Tally(inserted, v.count + if row.counted then 1 else 0, v.total, v.reported), before);
        RunsAppend(s, [WriteRow(row)], Code(after)[..k - 1]);
      }
    case Fire(body, after) =>
      if k == 0 {
        assert Code(es)[..k] == [];
        NoCode(s);
      } else if k <= |CodeBody(body)| {
        OpenTally(s, body, after, k, v, before);
      } else {
        FiredTrigger(s, body, after, k);
        var s1 := Fired(s, body);
        TallyIsState(s1, after, k - 1 - |CodeBody(body)|, v.(total := v.total + NestedIn(body), reported := ReportedIn(body, v.reported)), before);
        RunsAppend(s, [ContextPush] + CodeBody(body), Code(after)[..k - 1 - |CodeBody(body)|]);
      }
  }

  /** The state after a trigger that has run. */
  function Fired(s: State, body: Body): State
  {
    s.(nChange := ReportedIn(body, s.nChange), nTotalChange := s.nTotalChange + NestedIn(body))
  }

  lemma FiredTrigger(s: State, body: Body, after: Events, k: nat)
    requires |CodeBody(body)| < k <= |Code(Fire(body, after))|
    ensures Balanced([ContextPush] + CodeBody(body), |s.stack|) && Runs(s, [ContextPush] + CodeBody(body)) == Fired(s, body)
    ensures k - 1 - |CodeBody(body)| <= |Code(after)|
    ensures Code(Fire(body, after))[..k] == ([ContextPush] + CodeBody(body)) + Code(after)[..k - 1 - |CodeBody(body)|]
  {
    hide Balanced, Runs, CodeBody;
    RunsOne(s, ContextPush);
    BodyEffect(Next(s, ContextPush), body);
    RunsAppend(s, [ContextPush], CodeBody(body));
  }

  lemma {:induction false} OpenTally(s: State, body: Body, after: Events, k: nat, v: Tally, before: int)
    requires 0 < k <= |CodeBody(body)| && Shows(s, v, before)
    ensures k <= |Code(Fire(body, after))| && Balanced(Code(Fire(body, after))[..k], |s.stack|)
    ensures Shows(Runs(s, Code(Fire(body, after))[..k]), UptoIn(body, k - 1, v), before)
    decreases body, 1
  {
    hide Balanced, Runs, CodeSteps, UptoIn;
    assert Code(Fire(body, after))[..k] == [ContextPush] + CodeSteps(body)[..k - 1];
    RunsOne(s, ContextPush);
    BodyTally(Next(s, ContextPush), body, k - 1, v, before);
    RunsAppend(s, [ContextPush], CodeSteps(body)[..k - 1]);
  }

  lemma {:induction false} BodyTally(s: State, b: Body, k: nat, v: Tally, before: int)
    requires k <= |CodeSteps(b)| && Shows(s, v, before)
    ensures Balanced(CodeSteps(b)[..k], |s.stack|) && Shows(Runs(s, CodeSteps(b)[..k]), UptoIn(b, k, v), before)
    decreases b, 0
  {
    hide Balanced, Runs;
    if k == 0 {
      assert CodeSteps(b)[..k] == [];
      NoCode(s);
    } else {
      RunsOne(s, ResetCount(false));
      var s1 := Next(s, ResetCount(false));
      match b
      case IgnoredIn(part) =>
        assert CodeSteps(b)[..k] == [ResetCount(false)] + Code(part)[..k - 1];
        TallyIsState(s1, part, k - 1, v.(count := 0), before);
        RunsAppend(s, [ResetCount(false)], Code(part)[..k - 1]);
      case Step(events, rest) =>
        if k <= 1 + |Code(events)| {
          assert CodeSteps(b)[..k] == [ResetCount(false)] + Code(events)[..k - 1];
          TallyIsState(s1, events, k - 1, v.(count := 0), before);
          RunsAppend(s, [ResetCount(false)], Code(events)[..k - 1]);
        } else {
          StepTally(s, events, v, before);
          var first := [ResetCount(false)] + Code(events) + [ResetCount(true)];
          assert CodeSteps(b)[..k] == first + CodeSteps(rest)[..k - |first|];
          var w := Upto(events, |Code(events)|, v.(count := 0));
          BodyTally(Runs(s, first), rest, k - |first|, Tally(w.inserted, 0, w.total + w.count, w.count), before);
          RunsAppend(s, first, CodeSteps(rest)[..k - |first|]);
        }
    }
  }

  /** A step that is finished. */
  lemma {:induction false} StepTally(s: State, events: Events, v: Tally, before: int)
    requires Shows(s, v, before)
    ensures
      var first, w := [ResetCount(false)] + Code(events) + [ResetCount(true)], Upto(events, |Code(events)|, v.(count := 0));
      && Balanced(first, |s.stack|) && Runs(s, first).stack == s.stack
      && Shows(Runs(s, first), Tally(w.inserted, 0, w.total + w.count, w.count), before)
    decreases events, 1
  {
    hide Balanced, Runs, Code, Upto;
    var code := Code(events);
    var s1 := Next(s, ResetCount(false));
    RunsOne(s, ResetCount(false));
    Effect(s1, events);
    assert code[..|code|] == code;
    TallyIsState(s1, events, |code|, v.(count := 0), before);
    RunsAppend(s, [ResetCount(false)], code);
    var t := Runs(s1, code);
    RunsOne(t, ResetCount(true));
    RunsAppend(s, [ResetCount(false)] + code, [ResetCount(true)]);
  }

  // --------------------------------------------------------- the rowid after an error

  /** What the outermost statement itself inserted last, when a run stops: the bottom
      context if a trigger is open. */
  function Outermost(s: State): int
  {
    if s.stack == [] then s.lastRowid else s.stack[0].lastRowid
  }

  function DirectBefore(es: Events, before: int, k: nat): int
    requires k <= |Code(es)|
  {
    match es
    case Done => before
    case Write(row, after) =>
      if k == 0 then before else DirectBefore(after, if row.rowid.Some? then row.rowid.value else before, k - 1)
    case Fire(body, after) =>
      if k <= 1 + |CodeBody(body)| then before else DirectBefore(after, before, k - 1 - |CodeBody(body)|)
  }

  /** The rowid inserted last by the triggers that are open after `k` instructions. */
  function OpenInsert(es: Events, k: nat): Option<int>
    requires k <= |Code(es)|
  {
    match es
    case Done => None
    case Write(row, after) => if k == 0 then None else OpenInsert(after, k - 1)
    case Fire(body, after) =>
      if k == 0 then None
      else if k <= |CodeBody(body)| then UptoIn(body, k - 1, Tally(None, 0, 0, 0)).inserted
      else OpenInsert(after, k - 1 - |CodeBody(body)|)
  }

  /** The statement's own inserts and those of open triggers decide the rowid. */
  lemma {:induction false} RowidIs(es: Events, k: nat, v: Tally, before: int)
    requires k <= |Code(es)|
    ensures Or(Upto(es, k, v).inserted, before) == Or(OpenInsert(es, k), DirectBefore(es, Or(v.inserted, before), k))
    decreases es
  {
    match es
    case Done =>
    case Write(row, after) =>
      if k > 0 {
        var inserted := if row.rowid.Some? then row.rowid else v.inserted;
        RowidIs(after, k - 1, Tally(inserted, v.count + if row.counted then 1 else 0, v.total, v.reported), before);
      }
    case Fire(body, after) =>
      if k > |CodeBody(body)| {
        RowidIs(after, k - 1 - |CodeBody(body)|, v.(total := v.total + NestedIn(body), reported := ReportedIn(body, v.reported)), before);
      } else if k > 0 {
        OthersDoNotMatterIn(body, k - 1, v, Tally(None, 0, 0, 0));
      }
  }

  /** What was inserted depends on what was inserted before, not on the counts. */
  lemma {:induction false} OthersDoNotMatter(es: Events, k: nat, v: Tally, w: Tally)
    requires k <= |Code(es)| && w.inserted.None?
    ensures
      var inserted := Upto(es, k, w).inserted;
      Upto(es, k, v).inserted == if inserted.Some? then inserted else v.inserted
    decreases es, 0
  {
    match es
    case Done =>
    case Write(row, after) =>
      if k > 0 {
        var n := if row.counted then 1 else 0;
        var none := Tally(None, 0, 0, 0);
        OthersDoNotMatter(after, k - 1, Tally(if row.rowid.Some? then row.rowid else v.inserted, v.count + n, v.total, v.reported), none);
        OthersDoNotMatter(after, k - 1, Tally(if row.rowid.Some? then row.rowid else w.inserted, w.count + n, w.total, w.reported), none);
      }
    case Fire(body, after) =>
      if k > |CodeBody(body)| {
        OthersDoNotMatter(after, k - 1 - |CodeBody(body)|, v.(total := v.total + NestedIn(body), reported := ReportedIn(body, v.reported)), w.(total := w.total + NestedIn(body), reported := ReportedIn(body, w.reported)));
      } else if k > 0 {
        OthersDoNotMatterIn(body, k - 1, v, w);
      }
  }

  lemma {:induction false} OthersDoNotMatterIn(b: Body, k: nat, v: Tally, w: Tally)
    requires k <= |CodeSteps(b)| && w.inserted.None?
    ensures
      var inserted := UptoIn(b, k, w).inserted;
      UptoIn(b, k, v).inserted == if inserted.Some? then inserted else v.inserted
    decreases b, 0
  {
    if k > 0 {
      match b
      case IgnoredIn(part) => OthersDoNotMatter(part, k - 1, v.(count := 0), w.(count := 0));
      case Step(events, rest) =>
        var n := |Code(events)|;
        if k <= 1 + n {
          OthersDoNotMatter(events, k - 1, v.(count := 0), w.(count := 0));
        } else {
          var v1, w1 := Upto(events, n, v.(count := 0)), Upto(events, n, w.(count := 0));
          OthersDoNotMatter(events, n, v.(count := 0), w.(count := 0));
          var v2, w2 := Tally(v1.inserted, 0, v1.total + v1.count, v1.count), Tally(w1.inserted, 0, w1.total + w1.count, w1.count);
          OthersDoNotMatterIn(rest, k - 2 - n, v2, Tally(None, 0, 0, 0));
          OthersDoNotMatterIn(rest, k - 2 - n, w2, Tally(None, 0, 0, 0));
        }
    }
  }

  /** After an error last_insert_rowid is the statement's own exactly when the triggers
      open at that point inserted nothing, or the same rowid last. */
  lemma FailedInsideTrigger(s: State, es: Events, k: nat)
    requires s.stack == [] && k <= |Code(es)|
    ensures Balanced(Code(es)[..k], 0)
    ensures
      var own := DirectBefore(es, s.lastRowid, k);
      && Runs(s, Code(es)[..k]).lastRowid == Or(OpenInsert(es, k), own)
      && (Runs(s, Code(es)[..k]).lastRowid == own <==> OpenInsert(es, k).None? || OpenInsert(es, k).value == own)
  {
    hide Runs, Balanced, Code, Upto, OpenInsert, DirectBefore;
    var v := Tally(None, s.count, s.nTotalChange, s.nChange);
    TallyIsState(s, es, k, v, s.lastRowid);
    RowidIs(es, k, v, s.lastRowid);
  }

  /** The bottom of the stack keeps the statement's own last rowid. */
  lemma {:induction false} BottomKept(s: State, es: Events, k: nat)
    requires s.stack == [] && k <= |Code(es)|
    ensures Balanced(Code(es)[..k], 0) && Outermost(Runs(s, Code(es)[..k])) == DirectBefore(es, s.lastRowid, k)
    decreases es
  {
    hide Balanced, Runs;
    if k == 0 {
      assert Code(es)[..k] == [];
      NoCode(s);
    } else {
      match es
      case Write(row, after) =>
        assert Code(es)[..k] == [WriteRow(row)] + Code(after)[..k - 1];
        RunsOne(s, WriteRow(row));
        BottomKept(Next(s, WriteRow(row)), after, k - 1);
        RunsAppend(s, [WriteRow(row)], Code(after)[..k - 1]);
      case Fire(body, after) =>
        var n := 1 + |CodeBody(body)|;
        if k < n {
          OpenBody(s, body, after, k);
        } else {
          FiredTrigger(s, body, after, k);
          BottomKept(Fired(s, body), after, k - n);
          RunsAppend(s, [ContextPush] + CodeBody(body), Code(after)[..k - n]);
          NothingWritten(after, s.lastRowid);
        }
    }
  }

  lemma NothingWritten(es: Events, before: int)
    ensures DirectBefore(es, before, 0) == before
  {
  }

  /** Until its last instruction a trigger leaves what was on the stack. */
  lemma OpenBody(s: State, body: Body, after: Events, k: nat)
    requires s.stack == [] && 0 < k <= |CodeBody(body)|
    ensures k <= |Code(Fire(body, after))| && Balanced(Code(Fire(body, after))[..k], 0)
    ensures Outermost(Runs(s, Code(Fire(body, after))[..k])) == s.lastRowid
  {
    hide Balanced, Runs, CodeSteps;
    assert Code(Fire(body, after))[..k] == [ContextPush] + CodeSteps(body)[..k - 1];
    RunsOne(s, ContextPush);
    var s1 := Next(s, ContextPush);
    StepsEffect(State(0, 0, 0, 0, []), body);
    Prefix(CodeSteps(body), 0, k - 1);
    KeepsBase(s1, CodeSteps(body)[..k - 1], s1.stack, []);
    RunsAppend(s, [ContextPush], CodeSteps(body)[..k - 1]);
  }

  lemma {:induction false} KeepsBase(s: State, code: seq<Instr>, base: seq<Context>, extra: seq<Context>)
    requires s.stack == base + extra && Balanced(code, |extra|)
    ensures Balanced(code, |s.stack|) && base <= Runs(s, code).stack
    decreases |code|
  {
    if code != [] {
      match code[0]
      case ContextPush =>
        var c := Context(s.lastRowid, s.count);
        assert s.stack + [c] == base + (extra + [c]);
        KeepsBase(Next(s, code[0]), code[1..], base, extra + [c]);
      case ContextPop =>
        assert s.stack[..|s.stack| - 1] == base + extra[..|extra| - 1];
        KeepsBase(Next(s, code[0]), code[1..], base, extra[..|extra| - 1]);
      case _ => KeepsBase(Next(s, code[0]), code[1..], base, extra);
    }
  }

  /** An insert fires a trigger that inserts rowid 7 and then fails: the connection reports
      7, though the statement itself inserted nothing. */
  lemma AbortShowsTriggersRowid(s: State)
    requires s.stack == [] && s.lastRowid != 7
    ensures
      var es := Fire(Step(Write(Row(Some(7), true), Done), End), Write(Row(Some(1), true), Done));
      && 3 <= |Code(es)| && Balanced(Code(es)[..3], 0)
      && Runs(s, Code(es)[..3]).lastRowid == 7 && DirectBefore(es, s.lastRowid, 3) == s.lastRowid && OpenInsert(es, 3) == Some(7)
  {
    hide Runs, Balanced;
    var one := Write(Row(Some(7), true), Done);
    var body := Step(one, End);
    var es := Fire(body, Write(Row(Some(1), true), Done));
    assert |Code(one)| == 1 && |CodeSteps(body)| == 3 && |CodeBody(body)| == 4 && |Code(es)| == 6;
    FailedInsideTrigger(s, es, 3);
    assert OpenInsert(es, 3) == UptoIn(body, 2, Tally(None, 0, 0, 0)).inserted == Some(7);
  }

  // -------------------------------------------------- changes() inside a trigger

  /** What sqlite3_changes is to return after `k` instructions: the changes of the step
      completed last in the innermost trigger body that is open, or 0 there; `own` outside
      triggers. */
  function Innermost(es: Events, k: nat, own: int): int
    requires k <= |Code(es)|
    decreases es, 0
  {
    match es
    case Done => own
    case Write(_, after) => if k == 0 then own else Innermost(after, k - 1, own)
    case Fire(body, after) =>
      if k == 0 then own
      else if k <= |CodeBody(body)| then InnermostIn(body, k - 1, 0)
      else Innermost(after, k - 1 - |CodeBody(body)|, own)
  }

  function InnermostIn(b: Body, k: nat, own: int): int
    requires k <= |CodeSteps(b)|
    decreases b, 0
  {
    if k == 0 then own
    else
      match b
      case End => own
      case Ignored => own
      case IgnoredIn(part) => Innermost(part, k - 1, own)
      case Step(events, rest) =>
        if k <= 1 + |Code(events)| then Innermost(events, k - 1, own)
        else InnermostIn(rest, k - 2 - |Code(events)|, Direct(events))
  }

  /** Some step of the trigger, or of one below, was completed. */
  predicate Completes(b: Body)
  {
    match b
    case End => false
    case Ignored => false
    case IgnoredIn(part) => Fires(part)
    case Step(_, _) => true
  }

  predicate Fires(es: Events)
  {
    match es
    case Done => false
    case Write(_, after) => Fires(after)
    case Fire(body, after) => Completes(body) || Fires(after)
  }

  /** The changes reported last, if that was not for the innermost open body: before it
      began, or by a trigger below it since its own last step. */
  function Stray(es: Events, k: nat, own: int, stray: Option<int>): Option<int>
    requires k <= |Code(es)|
    decreases es, 0
  {
    match es
    case Done => stray
    case Write(_, after) => if k == 0 then stray else Stray(after, k - 1, own, stray)
    case Fire(body, after) =>
      if k == 0 then stray
      else if k <= |CodeBody(body)| then StrayIn(body, k - 1, 0, Some(Or(stray, own)))
      else Stray(after, k - 1 - |CodeBody(body)|, own, if Completes(body) then Some(ReportedIn(body, 0)) else stray)
  }

  function StrayIn(b: Body, k: nat, own: int, stray: Option<int>): Option<int>
    requires k <= |CodeSteps(b)|
    decreases b, 0
  {
    if k == 0 then stray
    else
      match b
      case End => stray
      case Ignored => stray
      case IgnoredIn(part) => Stray(part, k - 1, own, stray)
      case Step(events, rest) =>
        if k <= 1 + |Code(events)| then Stray(events, k - 1, own, stray)
        else StrayIn(rest, k - 2 - |Code(events)|, Direct(events), None)
  }

  /** A trigger reports what its last completed step says, or nothing. */
  lemma {:induction false} ReportsLast(es: Events, x: int, y: int)
    ensures Reported(es, x) == if Fires(es) then Reported(es, y) else x
    decreases es, 0
  {
    match es
    case Done =>
    case Write(_, after) => ReportsLast(after, x, y);
    case Fire(body, after) =>
      ReportsLastIn(body, x, y);
      ReportsLast(after, ReportedIn(body, x), ReportedIn(body, y));
  }

  lemma {:induction false} ReportsLastIn(b: Body, x: int, y: int)
    ensures ReportedIn(b, x) == if Completes(b) then ReportedIn(b, y) else x
    decreases b, 0
  {
    match b
    case End =>
    case Ignored =>
    case IgnoredIn(part) => ReportsLast(part, x, y);
    case Step(_, _) =>
  }

  /** The counter at the end of a step holds its direct changes. */
  lemma {:induction false} CountIsDirect(es: Events, v: Tally)
    ensures Upto(es, |Code(es)|, v).count == v.count + Direct(es)
    decreases es
  {
    match es
    case Done =>
    case Write(row, after) =>
      var inserted := if row.rowid.Some? then row.rowid else v.inserted;
      CountIsDirect(after, Tally(inserted, v.count + if row.counted then 1 else 0, v.total, v.reported));
    case Fire(body, after) =>
      CountIsDirect(after, v.(total := v.total + NestedIn(body), reported := ReportedIn(body, v.reported)));
  }

  lemma {:induction false} ReportedUpto(es: Events, k: nat, v: Tally, own: int, stray: Option<int>)
    requires k <= |Code(es)| && v.reported == Or(stray, own)
    ensures Upto(es, k, v).reported == Or(Stray(es, k, own, stray), Innermost(es, k, own))
    decreases es, 0
  {
    match es
    case Done =>
    case Write(row, after) =>
      if k > 0 {
        var inserted := if row.rowid.Some? then row.rowid else v.inserted;
        ReportedUpto(after, k - 1, Tally(inserted, v.count + if row.counted then 1 else 0, v.total, v.reported), own, stray);
      }
    case Fire(body, after) =>
      if k > |CodeBody(body)| {
        ReportsLastIn(body, v.reported, 0);
        ReportedUpto(after, k - 1 - |CodeBody(body)|, v.(total := v.total + NestedIn(body), reported := ReportedIn(body, v.reported)),
                     own, if Completes(body) then Some(ReportedIn(body, 0)) else stray);
      } else if k > 0 {
        ReportedUptoIn(body, k - 1, v, 0, Some(Or(stray, own)));
      }
  }

  lemma {:induction false} ReportedUptoIn(b: Body, k: nat, v: Tally, own: int, stray: Option<int>)
    requires k <= |CodeSteps(b)| && v.reported == Or(stray, own)
    ensures UptoIn(b, k, v).reported == Or(StrayIn(b, k, own, stray), InnermostIn(b, k, own))
    decreases b, 0
  {
    hide Upto, Stray, Innermost, Code;
    if k > 0 {
      match b
      case IgnoredIn(part) => ReportedUpto(part, k - 1, v.(count := 0), own, stray);
      case Step(events, rest) =>
        var len := |Code(events)|;
        if k <= 1 + len {
          ReportedUpto(events, k - 1, v.(count := 0), own, stray);
        } else {
          CountIsDirect(events, v.(count := 0));
          var w := Upto(events, len, v.(count := 0));
          ReportedUptoIn(rest, k - 2 - len, Tally(w.inserted, 0, w.total + w.count, w.count), Direct(events), None);
        }
    }
  }

  /** At every instruction changes() is that of the step completed last in the innermost
      open trigger body exactly when nothing else was reported since, before it began or by
      a trigger below, or the same number. */
  lemma ChangesInsideTrigger(s: State, es: Events, k: nat)
    requires k <= |Code(es)|
    ensures Balanced(Code(es)[..k], |s.stack|)
    ensures
      var own, stray, shown := Innermost(es, k, s.nChange), Stray(es, k, s.nChange, None), Runs(s, Code(es)[..k]).nChange;
      && shown == Or(stray, own)
      && (shown == own <==> stray.None? || stray.value == own)
  {
    hide Runs, Balanced, Code, Upto, Stray, Innermost;
    var v := Tally(None, s.count, s.nTotalChange, s.nChange);
    TallyIsState(s, es, k, v, s.lastRowid);
    ReportedUpto(es, k, v, s.nChange, None);
  }

  /** A trigger's first step changes two rows; its second one fires a trigger that changes
      one. Behind that, still in the second step, changes() is 1 and should be 2. */
  lemma SubtriggersChangesAreSeen(s: State, row: Row)
    requires row.counted
    ensures
      var sub := Step(Write(row, Done), End);
      var es := Fire(Step(Write(row, Write(row, Done)), Step(Fire(sub, Done), End)), Done);
      && 11 <= |Code(es)| && Balanced(Code(es)[..11], |s.stack|)
      && Runs(s, Code(es)[..11]).nChange == 1 && Innermost(es, 11, s.nChange) == 2
  {
    var one := Write(row, Done);
    var two, sub := Write(row, one), Step(one, End);
    var second := Fire(sub, Done);
    var later := Step(second, End);
    var body := Step(two, later);
    var es := Fire(body, Done);
    assert |Code(one)| == 1 && |Code(two)| == 2 && |CodeSteps(End)| == 0 && |Code(Done)| == 0;
    assert |CodeSteps(sub)| == 3 && |CodeBody(sub)| == 4;
    assert |Code(second)| == 5;
    assert |CodeSteps(later)| == 7;
    assert |CodeSteps(body)| == 11 && |CodeBody(body)| == 12 && |Code(es)| == 13;
    ChangesInsideTrigger(s, es, 11);
    assert Direct(one) == 1 && Direct(two) == 2;
    assert ReportedIn(End, 1) == 1 && ReportedIn(sub, 0) == 1;
    assert Innermost(es, 11, s.nChange) == InnermostIn(body, 10, 0) == InnermostIn(later, 6, 2) == Innermost(second, 5, 2) == 2;
    assert Stray(es, 11, s.nChange, None) == StrayIn(body, 10, 0, Some(s.nChange)) == StrayIn(later, 6, 2, None) == Stray(second, 5, 2, None) == Some(1);
  }

  // ------------------------------------------------------ the counter, read backwards

  /** The counted rows written in one open context since its step began: the innermost, or
      `depth` contexts further out. The code is read from its end; a trigger that is through
      is passed over, and one that has not begun a step leaves the context it was fired from. */
  function OpenChanges(code: seq<Instr>, depth: nat): int
    decreases |code|
  {
    if code == [] then 0
    else
      var before := code[..|code| - 1];
      match code[|code| - 1]
      case ContextPush => OpenChanges(before, if depth == 0 then 0 else depth - 1)
      case ContextPop => OpenChanges(before, depth + 1)
      case ResetCount(_) => if depth == 0 then 0 else OpenChanges(before, depth)
      case WriteRow(row) => (if depth == 0 && row.counted then 1 else 0) + OpenChanges(before, depth)
  }

  /** The changes of every step that was completed, each counted as it ended. */
  function StepChanges(code: seq<Instr>): int
    decreases |code|
  {
    if code == [] then 0
    else
      var before := code[..|code| - 1];
      StepChanges(before) + if code[|code| - 1] == ResetCount(true) then OpenChanges(before, 0) else 0
  }

  /** Whatever code has run, the counter is the rows of the innermost open context, every
      saved counter those of its own, and the connection was told of the completed steps. */
  lemma {:induction false} CounterIsOpenChanges(s: State, code: seq<Instr>)
    requires s.count == 0 && s.stack == [] && Balanced(code, 0)
    ensures
      var t := Runs(s, code);
      && t.count == OpenChanges(code, 0)
      && (forall d :: 1 <= d <= |t.stack| ==> t.stack[|t.stack| - d].count == OpenChanges(code, d))
      && t.nTotalChange == s.nTotalChange + StepChanges(code)
    decreases |code|
  {
    hide Balanced, Runs;
    if code == [] {
      NoCode(s);
    } else {
      var before, i := code[..|code| - 1], code[|code| - 1];
      assert code == before + [i];
      Prefix(code, 0, |before|);
      CounterIsOpenChanges(s, before);
      LastRuns(s, before, i);
    }
  }

  lemma {:induction false} LastRuns(s: State, before: seq<Instr>, i: Instr)
    requires Balanced(before + [i], |s.stack|) && Balanced(before, |s.stack|)
    ensures i.ContextPop? ==> Runs(s, before).stack != []
    ensures Runs(s, before + [i]) == Next(Runs(s, before), i)
    decreases |before|
  {
    var code := before + [i];
    if before == [] {
      assert code == [i] && [i][1..] == [];
    } else {
      assert code[0] == before[0] && code[1..] == before[1..] + [i];
      LastRuns(Next(s, before[0]), before[1..], i);
    }
  }

  // ---------------------------------------------------------------- the connection

  /** A statement's fate: run to its end, or stopped by an error before instruction k.
      sqlite3VdbeHalt reports no change only when it rolls back a statement journal;
      undoing or keeping the whole transaction reports the counter as it stands. */
  datatype Fate = Completed | Failed(k: nat, statementUndone: bool)

  ghost predicate Possible(es: Events, fate: Fate)
  {
    fate.Failed? ==> fate.k <= |Code(es)|
  }

  /** last_insert_rowid after a statement: its own last insert, and after an error that of
      an open trigger if there is one. */
  ghost function RowidAfter(es: Events, fate: Fate, before: int): int
    requires Possible(es, fate)
  {
    match fate
    case Completed => LastInsert(es, before)
    case Failed(k, _) => Or(OpenInsert(es, k), DirectBefore(es, before, k))
  }

  /** changes() after a statement. */
  ghost function ChangesOf(es: Events, fate: Fate): int
    requires Possible(es, fate)
  {
    match fate
    case Completed => Direct(es)
    case Failed(k, undone) => if undone then 0 else OpenChanges(Code(es)[..k], 0)
  }

  /** What a statement adds to total_changes(). */
  ghost function AddedBy(es: Events, fate: Fate): int
    requires Possible(es, fate)
  {
    match fate
    case Completed => Direct(es) + Nested(es)
    case Failed(k, _) => StepChanges(Code(es)[..k]) + ChangesOf(es, fate)
  }

  class Connection {
    var lastRowid: int
    var nChange: int
    var nTotalChange: int

    constructor ()
      ensures lastRowid == 0 && nChange == 0 && nTotalChange == 0
    {
      lastRowid, nChange, nTotalChange := 0, 0, 0;
    }

    method SetChanges(n: int)
      modifies `nChange, `nTotalChange
      ensures nChange == n && nTotalChange == old(nTotalChange) + n
    {
      nChange := n;
      nTotalChange := nTotalChange + n;
    }
  }

  /** The part of Vdbe that the counters use, running on a connection. */
  class Statement {
    const db: Connection
    var count: int
    var stack: seq<Context>

    constructor (db: Connection)
      ensures this.db == db && count == 0 && stack == []
    {
      this.db := db;
      count, stack := 0, [];
    }

    ghost function Now(): State
      reads this, db
    {
      State(db.lastRowid, db.nChange, db.nTotalChange, count, stack)
    }

    /** One instruction. */
    method Execute(i: Instr)
      requires i.ContextPop? ==> stack != []
      modifies this, db
      ensures Now() == Next(old(Now()), i)
    {
      match i {
        case ContextPush => stack := stack + [Context(db.lastRowid, count)];
        case ContextPop =>
          var top := stack[|stack| - 1];
          stack := stack[..|stack| - 1];
          db.lastRowid := top.lastRowid;
          count := top.count;
        case ResetCount(report) =>
          if report {
            db.SetChanges(count);
          }
          count := 0;
        case WriteRow(row) =>
          if row.counted { count := count + 1; }
          if row.rowid.Some? { db.lastRowid := row.rowid.value; }
      }
    }

    /** sqlite3VdbeExec over the first `n` instructions of a run. */
    method Exec(code: seq<Instr>, n: nat)
      requires n <= |code| && Balanced(code[..n], |stack|)
      modifies this, db
      ensures Now() == Runs(old(Now()), code[..n])
    {
      var pc := 0;
      assert code[0..n] == code[..n];
      while pc < n
        invariant 0 <= pc <= n && Balanced(code[pc..n], |stack|)
        invariant Runs(Now(), code[pc..n]) == Runs(old(Now()), code[..n])
      {
        assert code[pc..n][0] == code[pc] && code[pc..n][1..] == code[pc + 1..n];
        Execute(code[pc]);
        pc := pc + 1;
      }
    }

    /** A whole INSERT, UPDATE or DELETE and the halt after it. An error leaves the rowid,
        and unless a statement journal is undone the count, of the innermost open context. */
    method Run(es: Events, fate: Fate)
      requires count == 0 && stack == []
      requires Possible(es, fate)
      modifies this, db
      ensures count == 0 && stack == []
      ensures db.lastRowid == RowidAfter(es, fate, old(db.lastRowid))
      ensures fate.Completed? ==> db.nChange == Direct(es) && db.nTotalChange == old(db.nTotalChange) + Nested(es) + Direct(es)
      ensures fate.Failed? && fate.statementUndone ==> db.nChange == 0
      ensures fate.Failed? && !fate.statementUndone ==> db.nChange == OpenChanges(Code(es)[..fate.k], 0)
      ensures fate.Failed? ==> db.nTotalChange == old(db.nTotalChange) + StepChanges(Code(es)[..fate.k]) + db.nChange
    {
      hide Runs, Balanced, Upto, Code, OpenInsert, DirectBefore, OpenChanges, StepChanges;
      var code := Code(es);
      Effect(Now(), es);
      if fate.Completed? {
        assert code[..|code|] == code;
        Exec(code, |code|);
        db.SetChanges(count);
      } else {
        TallyIsState(Now(), es, fate.k, Tally(None, 0, db.nTotalChange, db.nChange), db.lastRowid);
        RowidIs(es, fate.k, Tally(None, 0, db.nTotalChange, db.nChange), db.lastRowid);
        CounterIsOpenChanges(Now(), code[..fate.k]);
        Exec(code, fate.k);
        db.SetChanges(if fate.statementUndone then 0 else count);
      }
      count := 0;
      stack := []; // Cleanup frees the context stack without popping it
    }
  }

  /** Three rows are to be inserted and the third one fails: changes() is 2, and 0 if the
      statement is undone; the total grows by as much. */
  lemma TwoRowsThenAFailure(row: Row)
    requires row.counted
    ensures
      var es := Write(row, Write(row, Write(row, Done)));
      && |Code(es)| == 3
      && ChangesOf(es, Failed(2, false)) == AddedBy(es, Failed(2, false)) == 2
      && ChangesOf(es, Failed(2, true)) == AddedBy(es, Failed(2, true)) == 0
  {
    var es := Write(row, Write(row, Write(row, Done)));
    var one, two := [WriteRow(row)], [WriteRow(row), WriteRow(row)];
    assert Code(Done) == [] && Code(Write(row, Done)) == one;
    assert Code(Write(row, Write(row, Done))) == two && Code(es) == [WriteRow(row)] + two;
    assert Code(es)[..2] == two && two[..1] == one && one[..0] == [];
    assert OpenChanges(one, 0) == 1 && StepChanges(one) == 0;
  }

  // ------------------------------------------------------------------ whole runs

  /** A statement and how it ended. */
  datatype Ended = Ended(events: Events, fate: Fate)

  /** The counts over a whole run of statements on one connection, completed or failed. */
  method RunAll(db: Connection, run: seq<Ended>)
    requires forall i :: 0 <= i < |run| ==> Possible(run[i].events, run[i].fate)
    modifies db
    ensures db.nTotalChange == old(db.nTotalChange) + Counted(run)
    ensures db.lastRowid == Inserted(run, old(db.lastRowid))
    ensures run != [] ==> db.nChange == ChangesOf(run[|run| - 1].events, run[|run| - 1].fate)
  {
    hide RowidAfter, OpenChanges, StepChanges, Code;
    var i := 0;
    while i < |run|
      invariant 0 <= i <= |run|
      invariant db.nTotalChange == old(db.nTotalChange) + Counted(run[..i])
      invariant db.lastRowid == Inserted(run[..i], old(db.lastRowid))
      invariant i > 0 ==> db.nChange == ChangesOf(run[i - 1].events, run[i - 1].fate)
    {
      assert run[..i + 1][..i] == run[..i];
      var v := new Statement(db);
      v.Run(run[i].events, run[i].fate);
      i := i + 1;
    }
    assert run[..i] == run;
  }

  ghost function Counted(run: seq<Ended>): int
    requires forall i :: 0 <= i < |run| ==> Possible(run[i].events, run[i].fate)
  {
    if run == [] then 0
    else Counted(run[..|run| - 1]) + AddedBy(run[|run| - 1].events, run[|run| - 1].fate)
  }

  ghost function Inserted(run: seq<Ended>, before: int): int
    requires forall i :: 0 <= i < |run| ==> Possible(run[i].events, run[i].fate)
  {
    if run == [] then before
    else RowidAfter(run[|run| - 1].events, run[|run| - 1].fate, Inserted(run[..|run| - 1], before))
  }
}

/** The mutexes of mutex_unix.c under every interleaving: both the recursive pthread
    mutex and the home-grown one, each load and store of a shared field a step of its own. */
module SqlMutex {
  import opened Options

  /** Where a thread stands inside sqlite3_mutex_enter, _try or _leave. */
  datatype Pc =
    | Idle
    | ReadRef(trying: bool)   // p->nRef > 0
    | ReadOwner(trying: bool) // pthread_equal(p->owner, self)
    | Lock(trying: bool)      // pthread_mutex_lock, or trylock
    | SetOwner                // p->owner = self
    | SetRef                  // p->nRef = 1
    | LoadUp                  // p->nRef++, its load
    | StoreUp(seen: int)      // and its store
    | LoadDown                // p->nRef--
    | StoreDown(seen: int)
    | Check                   // p->nRef == 0
    | Unlock                  // pthread_mutex_unlock

  /** A thread: its place, and how often it is inside. */
  datatype Thread = Thread(pc: Pc, depth: nat)

  /** One mutex: its build, its type, the pthread mutex inside, its fields, the threads. */
  datatype State = State(homegrown: bool, recursive: bool, holder: Option<nat>, locks: nat,
                         owner: Option<nat>, nRef: int, threads: seq<Thread>)

  datatype Call = Enter | Try | Leave

  datatype Action = Begin(call: Call) | Continue

  function Free(homegrown: bool, recursive: bool, n: nat): State
  {
    State(homegrown, recursive, None, 0, None, 0, seq(n, _ => Thread(Idle, 0)))
  }

  function At(s: State, t: nat, pc: Pc): State
    requires t < |s.threads|
  {
    s.(threads := s.threads[t := s.threads[t].(pc := pc)])
  }

  function Inside(s: State, t: nat, pc: Pc, depth: nat): State
    requires t < |s.threads|
  {
    s.(threads := s.threads[t := Thread(pc, depth)])
  }

  /** A pthread mutex takes a second lock from its holder only when it is recursive; the
      home-grown build never makes one. */
  predicate CanLock(s: State, t: nat)
  {
    s.holder == None || (s.holder == Some(t) && s.recursive && !s.homegrown)
  }

  /** What a thread may do next. Only a recursive mutex is entered again by its holder, and
      only a thread inside leaves: the assertions of the source. */
  predicate Enabled(s: State, t: nat, a: Action)
  {
    t < |s.threads| &&
    var th := s.threads[t];
    match a
    case Begin(Leave) => th.pc == Idle && th.depth > 0
    case Begin(_) => th.pc == Idle && (s.recursive || th.depth == 0)
    case Continue =>
      && th.pc != Idle
      && (th.pc.Lock? && !(th.pc.trying && !s.homegrown) ==> CanLock(s, t))
  }

  function Next(s: State, t: nat, a: Action): State
    requires Enabled(s, t, a)
  {
    var th := s.threads[t];
    match a
    case Begin(Leave) => At(s, t, LoadDown)
    case Begin(call) => At(s, t, if s.homegrown then ReadRef(call.Try?) else Lock(call.Try?))
    case Continue =>
      match th.pc
      case Idle => s
      case ReadRef(trying) => At(s, t, if s.nRef > 0 then ReadOwner(trying) else Lock(trying))
      case ReadOwner(trying) => At(s, t, if s.owner == Some(t) then LoadUp else Lock(trying))
      case Lock(_) =>
        if CanLock(s, t) then At(s.(holder := Some(t), locks := s.locks + 1), t, SetOwner)
        else At(s, t, Idle) // trylock: SQLITE_BUSY
      case SetOwner => At(s.(owner := Some(t)), t, if s.homegrown then SetRef else LoadUp)
      case SetRef => Inside(s.(nRef := 1), t, Idle, 1)
      case LoadUp => At(s, t, StoreUp(s.nRef))
      case StoreUp(seen) => Inside(s.(nRef := seen + 1), t, Idle, th.depth + 1)
      case LoadDown => At(s, t, StoreDown(s.nRef))
      case StoreDown(seen) =>
        Inside(s.(nRef := seen - 1), t, if s.homegrown then Check else Unlock, if th.depth > 0 then th.depth - 1 else 0)
      case Check => At(s, t, if s.nRef == 0 then Unlock else Idle)
      case Unlock =>
        At(s.(locks := if s.locks > 0 then s.locks - 1 else 0, holder := if s.locks <= 1 then None else s.holder), t, Idle)
  }

  // ------------------------------------------------------------------ invariants

  /** Places where the pthread mutex is held though the thread is not inside yet or any
      longer. */
  predicate Passing(pc: Pc)
  {
    pc.SetOwner? || pc.SetRef? || pc.LoadUp? || pc.StoreUp? || pc.Check? || pc.Unlock?
  }

  predicate Holding(pc: Pc)
  {
    Passing(pc) || pc.LoadDown? || pc.StoreDown?
  }

  /** Lock and unlock calls the thread has made more than its depth. */
  function Surplus(s: State, t: nat): int
    requires t < |s.threads|
  {
    var pc := s.threads[t].pc;
    if !s.homegrown && (pc.SetOwner? || pc.LoadUp? || pc.StoreUp? || pc.Unlock?) then 1 else 0
  }

  ghost predicate ThreadInv(s: State, t: nat)
    requires t < |s.threads|
  {
    var th := s.threads[t];
    && (th.depth > 0 ==> s.holder == Some(t))
    && (Holding(th.pc) ==> s.holder == Some(t))
    && (s.holder == Some(t) ==> s.nRef == th.depth && (th.depth > 0 || Passing(th.pc)))
    && (s.holder == Some(t) && !th.pc.SetOwner? ==> s.owner == Some(t))
    && (th.pc.StoreUp? || th.pc.StoreDown? ==> th.pc.seen == s.nRef)
    && (th.pc.LoadDown? || th.pc.StoreDown? ==> th.depth > 0)
    && (th.pc.SetRef? || (s.homegrown && th.pc.SetOwner?) ==> th.depth == 0)
    && (th.pc.SetRef? || th.pc.Check? || th.pc.ReadRef? || th.pc.ReadOwner? ==> s.homegrown)
    && (s.homegrown && (th.pc.LoadUp? || th.pc.StoreUp?) ==> th.depth > 0)
    && (s.homegrown && th.pc.Unlock? ==> th.depth == 0)
    && (s.homegrown && th.pc.Lock? ==> th.depth == 0)
    // a thread that has seen nRef > 0 is not deceived by its own stale name
    && (th.pc.ReadOwner? && s.holder != Some(t) ==> s.owner != Some(t))
    && (s.homegrown && th.pc.ReadOwner? && th.depth > 0 ==> s.owner == Some(t))
    && (s.homegrown && s.holder == Some(t) ==> s.locks == 1)
    && (!s.homegrown && s.holder == Some(t) ==> s.locks == th.depth + Surplus(s, t))
    && (!s.recursive && !s.homegrown ==> s.locks <= 1)
    && (th.pc == SetOwner || th.pc.LoadUp? || th.pc.StoreUp? || th.pc.Lock? || th.pc.ReadRef? || th.pc.ReadOwner? ==> s.recursive || th.depth == 0)
  }

  ghost predicate Inv(s: State)
  {
    && (s.holder == None ==> s.nRef == 0 && s.locks == 0)
    && (s.holder.Some? ==> s.holder.value < |s.threads|)
    && forall t :: 0 <= t < |s.threads| ==> ThreadInv(s, t)
  }

  lemma FreeInv(homegrown: bool, recursive: bool, n: nat)
    ensures Inv(Free(homegrown, recursive, n))
  {
  }

  lemma OwnStep(s: State, t: nat, a: Action)
    requires Inv(s) && Enabled(s, t, a)
    ensures |Next(s, t, a).threads| == |s.threads| && ThreadInv(Next(s, t, a), t)
  {
    hide Inv, ThreadInv;
    if s.homegrown { OwnStepHomegrown(s, t, a); } else { OwnStepPthread(s, t, a); }
  }

  lemma OwnStepHomegrown(s: State, t: nat, a: Action)
    requires Inv(s) && Enabled(s, t, a) && s.homegrown
    ensures |Next(s, t, a).threads| == |s.threads| && ThreadInv(Next(s, t, a), t)
  {
    assert ThreadInv(s, t);
    if s.holder.Some? { assert ThreadInv(s, s.holder.value); }
  }

  lemma OwnStepPthread(s: State, t: nat, a: Action)
    requires Inv(s) && Enabled(s, t, a) && !s.homegrown
    ensures |Next(s, t, a).threads| == |s.threads| && ThreadInv(Next(s, t, a), t)
  {
    assert ThreadInv(s, t);
  }

  /** Another thread's step disturbs nothing a thread relies on. */
  lemma OthersStep(s: State, t: nat, a: Action, u: nat)
    requires Inv(s) && Enabled(s, t, a) && u < |s.threads| && u != t
    ensures |Next(s, t, a).threads| == |s.threads| && ThreadInv(Next(s, t, a), u)
  {
    assert ThreadInv(s, t) && ThreadInv(s, u);
    var s' := Next(s, t, a);
    assert s'.threads[u] == s.threads[u];
  }

  lemma StepKeepsInv(s: State, t: nat, a: Action)
    requires Inv(s) && Enabled(s, t, a)
    ensures Inv(Next(s, t, a))
  {
    OwnStep(s, t, a);
    assert ThreadInv(s, t);
    hide ThreadInv;
    forall u | 0 <= u < |s.threads| ensures ThreadInv(Next(s, t, a), u) {
      if u != t { OthersStep(s, t, a, u); }
    }
  }

  // ------------------------------------------------------------------- every run

  datatype Move = Move(thread: nat, action: Action)

  ghost predicate IsRun(s: State, moves: seq<Move>)
    decreases |moves|
  {
    moves != [] ==>
      Enabled(s, moves[0].thread, moves[0].action) && IsRun(Next(s, moves[0].thread, moves[0].action), moves[1..])
  }

  ghost function After(s: State, moves: seq<Move>): State
    requires IsRun(s, moves)
    decreases |moves|
  {
    if moves == [] then s else After(Next(s, moves[0].thread, moves[0].action), moves[1..])
  }

  lemma {:induction false} RunKeepsInv(s: State, moves: seq<Move>)
    requires Inv(s) && IsRun(s, moves)
    ensures Inv(After(s, moves)) && |After(s, moves).threads| == |s.threads|
    ensures After(s, moves).homegrown == s.homegrown && After(s, moves).recursive == s.recursive
    decreases |moves|
  {
    if moves != [] {
      StepKeepsInv(s, moves[0].thread, moves[0].action);
      StepShape(s, moves[0].thread, moves[0].action);
      RunKeepsInv(Next(s, moves[0].thread, moves[0].action), moves[1..]);
    }
  }

  lemma StepShape(s: State, t: nat, a: Action)
    requires Enabled(s, t, a)
    ensures
      var s' := Next(s, t, a);
      |s'.threads| == |s.threads| && s'.homegrown == s.homegrown && s'.recursive == s.recursive
  {
  }

  /** How often a thread is inside. */
  function Depth(s: State, t: nat): nat
  {
    if t < |s.threads| then s.threads[t].depth else 0
  }

  /** After any interleaving from a free mutex, at most one thread is inside. */
  lemma MutualExclusion(homegrown: bool, recursive: bool, n: nat, moves: seq<Move>, t: nat, u: nat)
    requires IsRun(Free(homegrown, recursive, n), moves)
    requires Depth(After(Free(homegrown, recursive, n), moves), t) > 0
    requires Depth(After(Free(homegrown, recursive, n), moves), u) > 0
    ensures t == u
  {
    var s := Free(homegrown, recursive, n);
    FreeInv(homegrown, recursive, n);
    RunKeepsInv(s, moves);
    assert ThreadInv(After(s, moves), t) && ThreadInv(After(s, moves), u);
  }

  /** How a thread's moves change its depth: each completed entry adds one, each leave
      takes one. */
  function Change(s: State, t: nat, m: Move): int
  {
    if m.thread != t || t >= |s.threads| || m.action != Continue then 0
    else match s.threads[t].pc
      case SetRef => 1
      case StoreUp(_) => 1
      case StoreDown(_) => -1
      case _ => 0
  }

  ghost function Balance(s: State, t: nat, moves: seq<Move>): int
    requires IsRun(s, moves)
    decreases |moves|
  {
    if moves == [] then 0
    else Change(s, t, moves[0]) + Balance(Next(s, moves[0].thread, moves[0].action), t, moves[1..])
  }

  lemma StepChangesDepth(s: State, t: nat, m: Move)
    requires Inv(s) && Enabled(s, m.thread, m.action) && t < |s.threads|
    ensures
      var s' := Next(s, m.thread, m.action);
      |s'.threads| == |s.threads| && s'.threads[t].depth == s.threads[t].depth + Change(s, t, m)
  {
    assert ThreadInv(s, t) && ThreadInv(s, m.thread);
  }

  /** A thread's depth is its entries less its leaves, whatever the others do. */
  lemma {:induction false} DepthIsBalance(s: State, t: nat, moves: seq<Move>)
    requires Inv(s) && IsRun(s, moves) && t < |s.threads|
    ensures |After(s, moves).threads| == |s.threads|
    ensures After(s, moves).threads[t].depth == s.threads[t].depth + Balance(s, t, moves)
    decreases |moves|
  {
    if moves != [] {
      StepKeepsInv(s, moves[0].thread, moves[0].action);
      StepChangesDepth(s, t, moves[0]);
      DepthIsBalance(Next(s, moves[0].thread, moves[0].action), t, moves[1..]);
    }
  }

  /** A mutex entered k times needs k more leaves than entries before another thread is
      inside. */
  lemma LeavesBeforeOthers(s: State, t: nat, u: nat, moves: seq<Move>)
    requires Inv(s) && IsRun(s, moves) && t < |s.threads| && t != u
    requires Depth(After(s, moves), u) > 0
    ensures Balance(s, t, moves) + Depth(s, t) == 0
  {
    RunKeepsInv(s, moves);
    DepthIsBalance(s, t, moves);
    assert ThreadInv(After(s, moves), t) && ThreadInv(After(s, moves), u);
  }

  /** The fields tell the truth whenever no one is between its steps: nRef is the depth of
      the thread inside, owner its name, and the pthread mutex is free when nRef is 0. */
  lemma FieldsAtRest(s: State)
    requires Inv(s) && forall t :: 0 <= t < |s.threads| ==> s.threads[t].pc == Idle
    ensures s.nRef == 0 <==> s.holder == None
    ensures s.holder.Some? ==> s.holder.value < |s.threads| && s.owner == s.holder && s.nRef == s.threads[s.holder.value].depth
  {
    if s.holder.Some? { assert ThreadInv(s, s.holder.value); }
  }

  // -------------------------------------------------------------- whether try blocks

  /** A thread inside sqlite3_mutex_try. */
  predicate Trying(th: Thread)
  {
    match th.pc
    case ReadRef(trying) => trying
    case ReadOwner(trying) => trying
    case Lock(trying) => trying
    case _ => false
  }

  /** A thread that has begun a call can go on unless it waits for the lock; sqlite3_mutex_try
      waits only in the home-grown build, exactly when another thread has the lock. */
  lemma TryBlocks(s: State, t: nat)
    requires Inv(s) && t < |s.threads| && s.threads[t].pc != Idle
    ensures !s.threads[t].pc.Lock? ==> Enabled(s, t, Continue)
    ensures Trying(s.threads[t]) ==>
      (!Enabled(s, t, Continue) <==> s.homegrown && s.threads[t].pc.Lock? && s.holder.Some?)
    ensures Trying(s.threads[t]) && !Enabled(s, t, Continue) ==> s.holder != Some(t)
  {
    assert ThreadInv(s, t);
  }

  /** With another thread inside, a try of the home-grown build comes to wait for it
      where the documentation promises SQLITE_BUSY; the other build returns. */
  lemma TryMeetsOwner(s: State, t: nat, u: nat)
    requires Inv(s) && t < |s.threads| && u < |s.threads| && t != u
    requires s.threads[u].pc == Idle && s.threads[u].depth > 0 && s.threads[t].pc == Idle
    ensures Enabled(s, t, Begin(Try))
    ensures
      var s1 := Next(s, t, Begin(Try));
      Enabled(s1, t, Continue) &&
      var s2 := Next(s1, t, Continue);
      if s.homegrown then
        Enabled(s2, t, Continue) &&
        var s3 := Next(s2, t, Continue);
        |s3.threads| == |s.threads| && Trying(s3.threads[t]) && !Enabled(s3, t, Continue)
      else s2 == s
  {
    assert ThreadInv(s, t) && ThreadInv(s, u);
    var s1 := Next(s, t, Begin(Try));
    if !s.homegrown {
      assert s1.threads[t := s1.threads[t].(pc := Idle)] == s.threads;
    }
  }

  /** A try of a free mutex, or by the thread inside a recursive one, gets in, and so does
      an enter: five steps later the thread is inside once more and the fields say so. */
  lemma GetsIn(s: State, t: nat, call: Call)
    requires Inv(s) && t < |s.threads| && s.threads[t].pc == Idle && !call.Leave?
    requires s.holder == None || (s.holder == Some(t) && s.recursive)
    ensures
      var on := Move(t, Continue);
      var moves := [Move(t, Begin(call)), on, on, on, on];
      IsRun(s, moves) &&
      var u, d := After(s, moves), s.threads[t].depth + 1;
      && u.threads == s.threads[t := Thread(Idle, d)]
      && u.holder == Some(t) && u.owner == Some(t) && u.nRef == d
  {
    assert ThreadInv(s, t);
    if s.homegrown { HomegrownGetsIn(s, t, call); } else { PthreadGetsIn(s, t, call); }
  }

  lemma PthreadGetsIn(s: State, t: nat, call: Call)
    requires t < |s.threads| && s.threads[t].pc == Idle && !call.Leave? && !s.homegrown && s.nRef == s.threads[t].depth
    requires if s.holder == None then s.recursive || s.threads[t].depth == 0 else s.holder == Some(t) && s.recursive
    ensures
      var on := Move(t, Continue);
      var moves := [Move(t, Begin(call)), on, on, on, on];
      IsRun(s, moves) &&
      var u, d := After(s, moves), s.threads[t].depth + 1;
      u.threads == s.threads[t := Thread(Idle, d)] && u.holder == Some(t) && u.owner == Some(t) && u.nRef == d
  {
    hide IsRun, After;
    var s1 := Next(s, t, Begin(call));
    var s2 := Next(s1, t, Continue);
    var s3 := Next(s2, t, Continue);
    var s4 := Next(s3, t, Continue);
    var s5 := Next(s4, t, Continue);
    FiveMoves(s, t, call, s1, s2, s3, s4, s5);
    assert s5.threads == s.threads[t := Thread(Idle, s.threads[t].depth + 1)];
  }

  lemma HomegrownGetsIn(s: State, t: nat, call: Call)
    requires t < |s.threads| && s.threads[t].pc == Idle && !call.Leave? && s.homegrown && s.nRef == s.threads[t].depth
    requires if s.holder == None then s.threads[t].depth == 0 else s.holder == s.owner == Some(t) && s.recursive && s.threads[t].depth > 0
    ensures
      var on := Move(t, Continue);
      var moves := [Move(t, Begin(call)), on, on, on, on];
      IsRun(s, moves) &&
      var u, d := After(s, moves), s.threads[t].depth + 1;
      u.threads == s.threads[t := Thread(Idle, d)] && u.holder == Some(t) && u.owner == Some(t) && u.nRef == d
  {
    hide IsRun, After;
    var s1 := Next(s, t, Begin(call));
    var s2 := Next(s1, t, Continue);
    var s3 := Next(s2, t, Continue);
    var s4 := Next(s3, t, Continue);
    var s5 := Next(s4, t, Continue);
    FiveMoves(s, t, call, s1, s2, s3, s4, s5);
    assert s5.threads == s.threads[t := Thread(Idle, s.threads[t].depth + 1)];
  }

  lemma FiveMoves(s: State, t: nat, call: Call, s1: State, s2: State, s3: State, s4: State, s5: State)
    requires Enabled(s, t, Begin(call)) && s1 == Next(s, t, Begin(call)) && Enabled(s1, t, Continue) && s2 == Next(s1, t, Continue)
    requires Enabled(s2, t, Continue) && s3 == Next(s2, t, Continue) && Enabled(s3, t, Continue) && s4 == Next(s3, t, Continue)
    requires Enabled(s4, t, Continue) && s5 == Next(s4, t, Continue)
    ensures
      var on := Move(t, Continue);
      var moves := [Move(t, Begin(call)), on, on, on, on];
      IsRun(s, moves) && After(s, moves) == s5
  {
    hide Enabled, Next;
    var on := Move(t, Continue);
    var four, three, two, one := [on, on, on, on], [on, on, on], [on, on], [on];
    assert ([Move(t, Begin(call))] + four)[1..] == four && four[1..] == three && three[1..] == two && two[1..] == one && one[1..] == [];
    assert IsRun(s5, []) && IsRun(s4, one) && IsRun(s3, two) && IsRun(s2, three) && IsRun(s1, four);
    assert After(s5, []) == s5 && After(s4, one) == s5 && After(s3, two) == s5 && After(s2, three) == s5 && After(s1, four) == s5;
    assert [Move(t, Begin(call)), on, on, on, on] == [Move(t, Begin(call))] + four;
  }

  // ------------------------------------------------------------------- allocation

  const MUTEX_FAST := 0
  const MUTEX_RECURSIVE := 1
  const STATIC_MUTEXES := 5

  /** sqlite3_mutex: its type, and whether the pthread mutex inside is a recursive one. */
  class Mutex {
    var id: int
    const recursive: bool
    constructor (id: int, recursive: bool)
      ensures this.id == id && this.recursive == recursive
    {
      this.id, this.recursive := id, recursive;
    }
  }

  class Subsystem {
    const homegrown: bool
    const staticMutexes: seq<Mutex>

    constructor (homegrown: bool)
      ensures Valid() && fresh(staticMutexes) && this.homegrown == homegrown
    {
      this.homegrown := homegrown;
      var a := new Mutex(0, false);
      var b := new Mutex(0, false);
      var c := new Mutex(0, false);
      var d := new Mutex(0, false);
      var e := new Mutex(0, false);
      staticMutexes := [a, b, c, d, e];
    }

    ghost predicate Valid()
    {
      && |staticMutexes| == STATIC_MUTEXES
      && (forall i, j :: 0 <= i < j < STATIC_MUTEXES ==> staticMutexes[i] != staticMutexes[j])
      && forall i :: 0 <= i < STATIC_MUTEXES ==> !staticMutexes[i].recursive
    }

    /** sqlite3_mutex_alloc: a new mutex for the two dynamic types, exactly when memory is
        granted, a recursive pthread mutex in it only for type 1 and where the build has
        them; for a static type always its own. */
    method Alloc(iType: int, granted: bool) returns (p: Mutex?)
      requires Valid() && 0 <= iType < 7
      modifies staticMutexes`id
      ensures iType < 2 ==> (p != null <==> granted)
      ensures iType < 2 && p != null ==> fresh(p) && (p.recursive <==> iType == 1 && !homegrown)
      ensures iType >= 2 ==> p == staticMutexes[iType - 2] && !p.recursive
      ensures p != null ==> p.id == iType
    {
      if iType == MUTEX_RECURSIVE {
        p := null;
        if granted { p := new Mutex(iType, !homegrown); }
      } else if iType == MUTEX_FAST {
        p := null;
        if granted { p := new Mutex(iType, false); }
      } else {
        p := staticMutexes[iType - 2];
        p.id := iType;
      }
    }
  }
}

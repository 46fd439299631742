/** The default allocator of mem1.c: the blocks it hands out, what it counts, and the
    alarm callback that may call it again. */
module SqlAllocator {

  type Byte = x: int | 0 <= x < 256

  /** The live blocks: what the caller may use at each address. */
  type Blocks = map<int, seq<Byte>>

  /** The bytes outstanding. */
  ghost function Total(m: Blocks): nat
    decreases |m|
  {
    if m == map[] then 0
    else
      Nonempty(m);
      var a :| a in m;
      Smaller(m, a);
      |m[a]| + Total(m - {a})
  }

  lemma Nonempty(m: Blocks)
    ensures m == map[] || exists a :: a in m
  {
    if forall a :: a !in m { assert m == map[]; }
  }

  lemma SomeAddress(s: set<int>)
    ensures s == {} || exists a :: a in s
  {
    if forall a :: a !in s { assert s == {}; }
  }

  lemma Smaller(m: Blocks, a: int)
    requires a in m
    ensures |m - {a}| == |m| - 1 && (m - {a}).Keys == m.Keys - {a}
  {
    assert (m - {a}).Keys == m.Keys - {a};
    assert |m.Keys| == |m.Keys - {a}| + 1;
  }

  lemma {:induction false} TotalWithout(m: Blocks, a: int)
    requires a in m
    ensures Total(m) == |m[a]| + Total(m - {a})
    decreases |m|
  {
    assert m != map[];
    var b :| b in m && Total(m) == |m[b]| + Total(m - {b});
    if b != a {
      Smaller(m, a);
      Smaller(m, b);
      TotalWithout(m - {b}, a);
      TotalWithout(m - {a}, b);
      assert m - {b} - {a} == m - {a} - {b};
    }
  }

  lemma TotalWith(m: Blocks, a: int, content: seq<Byte>)
    requires a !in m
    ensures Total(m[a := content]) == Total(m) + |content|
  {
    TotalWithout(m[a := content], a);
    assert m[a := content] - {a} == m;
  }

  ghost function Max(s: seq<int>): int
    requires s != []
  {
    if |s| == 1 then s[0]
    else
      var rest := Max(s[..|s| - 1]);
      if s[|s| - 1] > rest then s[|s| - 1] else rest
  }

  lemma MaxSnoc(s: seq<int>, x: int)
    requires s != []
    ensures Max(s + [x]) == if x > Max(s) then x else Max(s)
  {
    assert (s + [x])[..|s|] == s;
  }

  /** The maximum is reached and not passed. */
  lemma {:induction false} MaxIs(s: seq<int>)
    requires s != []
    ensures Max(s) in s && forall x :: x in s ==> x <= Max(s)
  {
    if |s| > 1 {
      MaxIs(s[..|s| - 1]);
      assert s == s[..|s| - 1] + [s[|s| - 1]];
    }
  }

  /** Equal in as many bytes as both have. */
  predicate SharedPrefix(a: seq<Byte>, b: seq<Byte>)
  {
    if |a| < |b| then a == b[..|a|] else b == a[..|b|]
  }

  // ------------------------------------------------------------------ what happened

  /** The blocks after a change, or an answer of sqlite3_memory_highwater. */
  datatype Event = Held(blocks: Blocks) | Answered(n: int, reset: bool)

  /** The blocks at the end. */
  ghost function Now(log: seq<Event>): Blocks
  {
    if log == [] then map[]
    else match log[|log| - 1] case Held(b) => b case Answered(_, _) => Now(log[..|log| - 1])
  }

  /** Every sum over the blocks since the last answer that reset the mark, the sum at the
      reset included. */
  ghost function Since(log: seq<Event>): (s: seq<int>)
    ensures s != []
  {
    if log == [] then [0]
    else
      var before := log[..|log| - 1];
      match log[|log| - 1]
      case Held(b) => Since(before) + [Total(b)]
      case Answered(_, reset) => if reset then [Total(Now(before))] else Since(before)
  }

  /** Every answer is the maximum of the sums since the reset before it. */
  ghost predicate Truthful(log: seq<Event>)
  {
    forall k :: 0 <= k < |log| && log[k].Answered? ==> log[k].n == Max(Since(log[..k]))
  }

  /** Changes of the blocks and nothing else came after `was`. */
  ghost predicate Grown(was: seq<Event>, log: seq<Event>)
  {
    was <= log && forall k :: |was| <= k < |log| ==> log[k].Held?
  }

  ghost function Answers(log: seq<Event>): seq<int>
  {
    if log == [] then []
    else Answers(log[..|log| - 1]) + match log[|log| - 1] case Held(_) => [] case Answered(n, _) => [n]
  }

  lemma Logged(log: seq<Event>, e: Event)
    requires Truthful(log) && (e.Answered? ==> e.n == Max(Since(log)))
    ensures Truthful(log + [e])
    ensures Now(log + [e]) == if e.Held? then e.blocks else Now(log)
    ensures Since(log + [e]) ==
      if e.Held? then Since(log) + [Total(e.blocks)] else if e.reset then [Total(Now(log))] else Since(log)
    ensures Answers(log + [e]) == Answers(log) + if e.Held? then [] else [e.n]
  {
    assert (log + [e])[..|log|] == log;
    forall k | 0 <= k < |log + [e]| && (log + [e])[k].Answered? ensures (log + [e])[k].n == Max(Since((log + [e])[..k])) {
      if k < |log| { assert (log + [e])[..k] == log[..k]; }
    }
  }

  lemma {:induction false} GrownAnswers(was: seq<Event>, log: seq<Event>)
    requires Grown(was, log)
    ensures Answers(log) == Answers(was)
    decreases |log|
  {
    if |was| < |log| {
      var before := log[..|log| - 1];
      assert Grown(was, before);
      GrownAnswers(was, before);
    } else {
      assert was == log;
    }
  }

  // ------------------------------------------------------------------ the allocator

  /** What an alarm callback may do: call the allocator. */
  datatype Call = Allocate(n: int) | Release(p: int) | Reallocate(p: int, n: int)

  /** The header in front of each block. */
  const HEADER: nat := 8

  class Memory {
    /** Whether the system grants the n-th attempt to allocate or reallocate. */
    const grants: nat -> bool
    var tried: nat
    /** The callbacks made. */
    var alarms: nat
    var nowUsed: int
    var mxUsed: int
    var alarmSet: bool
    var alarmThreshold: int
    var alarmBusy: bool
    var blocks: Blocks
    /** The bytes the system has handed out and not taken back. */
    ghost var taken: int
    ghost var log: seq<Event>

    constructor (grants: nat -> bool)
      ensures Valid() && blocks == map[] && !alarmBusy && !alarmSet && log == []
      ensures this.grants == grants && tried == 0 && alarms == 0
    {
      this.grants, tried, alarms := grants, 0, 0;
      nowUsed, mxUsed, alarmSet, alarmThreshold, alarmBusy, blocks := 0, 0, false, 0, false, map[];
      taken, log := 0, [];
    }

    /** The counter is the sum over the live blocks, the mark the maximum it has had since
        it was reset, and every answer given so far was true. */
    ghost predicate Valid()
      reads `nowUsed, `mxUsed, `blocks, `taken, `log
    {
      && nowUsed == Total(blocks) && 0 !in blocks && Now(log) == blocks
      && mxUsed == Max(Since(log)) && Truthful(log)
      && taken == Total(blocks) + HEADER * |blocks|
    }

    lemma NothingAtNull()
      requires Valid()
      ensures 0 !in blocks
    {
    }

    /** sqlite3_memory_used */
    method Used() returns (n: int)
      requires Valid()
      ensures n == Total(blocks) == Total(Now(log))
    {
      n := nowUsed;
    }

    /** sqlite3_memory_highwater */
    method Highwater(reset: bool) returns (n: int)
      requires Valid()
      modifies `mxUsed, `log
      ensures Valid() && n == Max(Since(old(log))) && log == old(log) + [Answered(n, reset)]
    {
      n := mxUsed;
      Logged(log, Answered(n, reset));
      if reset {
        mxUsed := nowUsed;
      }
      log := log + [Answered(n, reset)];
    }

    /** sqlite3_memory_alarm */
    method SetAlarm(callback: bool, threshold: int)
      requires Valid()
      modifies `alarmSet, `alarmThreshold
      ensures Valid() && alarmSet == callback && alarmThreshold == threshold
    {
      alarmSet, alarmThreshold := callback, threshold;
    }

    /** Whether no callback would be made. */
    predicate Quiet(calls: seq<Call>)
      reads this
    {
      !alarmSet || alarmBusy || calls == []
    }

    /** The system has handed out a block, new or in place of `prior`, that is not
        recorded yet. */
    ghost predicate Pending(prior: int, p: int, content: seq<Byte>)
      reads this
    {
      && nowUsed == Total(blocks) && 0 !in blocks && Now(log) == blocks && mxUsed == Max(Since(log)) && Truthful(log)
      && p != 0 && (if prior == 0 then p !in blocks else prior in blocks && (p == prior || p !in blocks))
      && taken == Total(blocks) + HEADER * |blocks|
                  + if prior == 0 then |content| + HEADER else |content| - |blocks[prior]|
    }

    /** The system's malloc: NULL, or a block no one has; `content` is what is behind the
        header. */
    method SystemMalloc(n: nat) returns (p: int, content: seq<Byte>)
      requires Valid() && n >= HEADER
      modifies `taken, `tried
      ensures tried == old(tried) + 1 && (p != 0 <==> grants(old(tried)))
      ensures |content| == n - HEADER && taken == old(taken) + if p == 0 then 0 else n
      ensures if p == 0 then Valid() else Pending(0, p, content) && p !in blocks
    {
      content := seq(n - HEADER, _ => 0);
      p := 0;
      if grants(tried) {
        p := *;
        if p == 0 || p in blocks { p := Unused(); }
        taken := taken + n;
      }
      tried := tried + 1;
    }

    /** Some address that is free. */
    method Unused() returns (p: int)
      ensures p != 0 && p !in blocks
    {
      p := 1;
      var left := blocks.Keys;
      while left != {}
        invariant p > 0 && left <= blocks.Keys && forall q :: q in blocks ==> q in left || q < p
        decreases |left|
      {
        SomeAddress(left);
        var q :| q in left;
        if q >= p { p := q + 1; }
        left := left - {q};
      }
    }

    /** Counting a change of the blocks. */
    method Count(delta: int)
      requires mxUsed == Max(Since(log)) && Truthful(log) && nowUsed + delta == Total(blocks)
      modifies `nowUsed, `mxUsed, `log
      ensures nowUsed == Total(blocks) && log == old(log) + [Held(blocks)]
      ensures mxUsed == Max(Since(log)) && Truthful(log) && Now(log) == blocks
    {
      hide Since, Now, Truthful, Total;
      nowUsed := nowUsed + delta;
      MaxSnoc(Since(log), nowUsed);
      Logged(log, Held(blocks));
      if nowUsed > mxUsed {
        mxUsed := nowUsed;
      }
      log := log + [Held(blocks)];
    }

    /** Recording it. */
    method Place(prior: int, p: int, content: seq<Byte>)
      requires Pending(prior, p, content)
      modifies `blocks, `nowUsed, `mxUsed, `log
      ensures Valid() && log == old(log) + [Held(blocks)]
      ensures blocks == (if prior == 0 then old(blocks) else old(blocks) - {prior})[p := content]
    {
      hide Total, Max, Since, Now, Truthful;
      var nOld := if prior == 0 then 0 else |blocks[prior]|;
      if prior == 0 {
        TotalWith(blocks, p, content);
        blocks := blocks[p := content];
      } else {
        Moved(blocks, prior, p, content);
        blocks := (blocks - {prior})[p := content];
      }
      Count(|content| - nOld);
    }

    /** sqlite3MemsysAlarm: no callback inside a callback; `keep` is the block the caller
        is at work on, which a callback may not release. */
    method Alarm(calls: seq<Call>, keep: int)
      requires Valid()
      modifies this
      ensures Valid() && alarmBusy == old(alarmBusy) && alarmSet == old(alarmSet) && Grown(old(log), log)
      ensures old(Quiet(calls)) ==> blocks == old(blocks) && log == old(log) && tried == old(tried) && nowUsed == old(nowUsed)
      ensures alarms == old(alarms) + (if alarmSet && !alarmBusy then 1 else 0) && tried >= old(tried)
      ensures alarmThreshold == old(alarmThreshold)
      ensures keep in old(blocks) ==> keep in blocks && blocks[keep] == old(blocks[keep])
      decreases if alarmBusy then 0 else 1, 0
    {
      hide Total, Max, Since, Now, Truthful, Valid, Pending, SharedPrefix;
      if !alarmSet || alarmBusy {
        return;
      }
      alarmBusy, alarms := true, alarms + 1;
      var i := 0;
      while i < |calls|
        invariant 0 <= i <= |calls| && Valid() && alarmBusy && alarmSet == old(alarmSet) && Grown(old(log), log)
        invariant i == 0 ==> blocks == old(blocks) && log == old(log) && tried == old(tried) && nowUsed == old(nowUsed)
        invariant alarms == old(alarms) + 1 && tried >= old(tried) && alarmThreshold == old(alarmThreshold)
        invariant keep in old(blocks) ==> keep in blocks && blocks[keep] == old(blocks[keep])
      {
        NothingAtNull();
        match calls[i] {
          case Allocate(n) =>
            var p := Malloc(n, [], [], keep);
          case Release(p) =>
            if p in blocks && p != keep { Free(p); }
          case Reallocate(p, n) =>
            if p == 0 || (p in blocks && p != keep) { var r := Realloc(p, n, [], []); }
        }
        i := i + 1;
      }
      alarmBusy := false;
    }

    /** An attempt, and after a callback a second one. */
    method TryMalloc(n: nat, calls2: seq<Call>, keep: int) returns (p: int, content: seq<Byte>)
      requires Valid() && n >= HEADER
      modifies this
      ensures alarmBusy == old(alarmBusy) && alarmSet == old(alarmSet) && alarmThreshold == old(alarmThreshold)
      ensures Grown(old(log), log) && tried > old(tried) && (p != 0 <==> grants(tried - 1))
      ensures alarms == old(alarms) + if !grants(old(tried)) && alarmSet && !alarmBusy then 1 else 0
      ensures grants(old(tried)) || old(Quiet(calls2)) ==>
        tried == old(tried) + (if grants(old(tried)) then 1 else 2) && blocks == old(blocks) && log == old(log)
      ensures |content| == n - HEADER && if p == 0 then Valid() else Pending(0, p, content) && p !in blocks
      ensures keep in old(blocks) ==> keep in blocks && blocks[keep] == old(blocks[keep])
      decreases if alarmBusy then 0 else 1, 1
    {
      hide Total, Max, Since, Now, Truthful, Valid, Pending;
      p, content := SystemMalloc(n);
      if p == 0 {
        Alarm(calls2, keep);
        p, content := SystemMalloc(n);
      }
    }

    /** sqlite3_malloc. `calls1` and `calls2` are what a callback does before the attempt
        and after it fails. */
    method Malloc(nBytes: int, calls1: seq<Call>, calls2: seq<Call>, keep: int) returns (p: int)
      requires Valid()
      modifies this
      ensures Valid() && alarmBusy == old(alarmBusy) && alarmSet == old(alarmSet) && Grown(old(log), log)
      ensures nBytes <= 0 ==> p == 0 && blocks == old(blocks) && log == old(log) && tried == old(tried)
      ensures nBytes > 0 ==> tried > old(tried) && (p != 0 <==> grants(tried - 1))
      ensures alarmThreshold == old(alarmThreshold) && (alarmBusy ==> alarms == old(alarms))
      ensures old(Quiet(calls1) && Quiet(calls2)) && nBytes > 0 ==>
        && tried == old(tried) + (if grants(old(tried)) then 1 else 2)
        && alarms == old(alarms) + if !alarmSet || alarmBusy then 0
           else (if old(nowUsed) + nBytes >= alarmThreshold then 1 else 0) + (if grants(old(tried)) then 0 else 1)
      ensures p != 0 ==> p in blocks && |blocks[p]| == nBytes
      ensures keep in old(blocks) ==> p != keep && keep in blocks && blocks[keep] == old(blocks[keep])
      ensures old(Quiet(calls1) && Quiet(calls2)) && p == 0 ==> blocks == old(blocks) && log == old(log)
      ensures old(Quiet(calls1) && Quiet(calls2)) && p != 0 ==>
        p !in old(blocks) && blocks == old(blocks)[p := blocks[p]] && log == old(log) + [Held(blocks)]
      decreases if alarmBusy then 0 else 1, 2
    {
      hide Total, Max, Since, Now, Truthful, Valid, Pending;
      NothingAtNull();
      p := 0;
      if nBytes > 0 {
        if alarmSet && nowUsed + nBytes >= alarmThreshold {
          Alarm(calls1, keep);
        }
        var content;
        p, content := TryMalloc(nBytes + HEADER, calls2, keep);
        if p != 0 {
          Place(0, p, content);
        }
      }
    }

    /** sqlite3_free */
    method Free(p: int)
      requires Valid() && (p != 0 ==> p in blocks)
      modifies `blocks, `taken, `nowUsed, `mxUsed, `log
      ensures Valid() && blocks == old(blocks) - {p}
      ensures alarmBusy == old(alarmBusy) && alarmSet == old(alarmSet)
      ensures log == if p == 0 then old(log) else old(log) + [Held(blocks)]
      decreases 0, 0
    {
      if p == 0 {
        assert blocks - {0} == blocks;
        return;
      }
      hide Total, Max, Since, Now, Truthful;
      var nByte := |blocks[p]|;
      TotalWithout(blocks, p);
      Smaller(blocks, p);
      blocks := blocks - {p};
      taken := taken - (nByte + HEADER);
      Count(-nByte);
    }

    /** The system's realloc: NULL and the old block untouched, or a block with as much of
        the old content as fits. */
    method SystemRealloc(prior: int, n: nat) returns (p: int, content: seq<Byte>)
      requires Valid() && prior in blocks && prior != 0 && n >= HEADER
      modifies `taken, `tried
      ensures tried == old(tried) + 1 && (p != 0 <==> grants(old(tried)))
      ensures |content| == n - HEADER && SharedPrefix(content, blocks[prior])
      ensures taken == old(taken) + if p == 0 then 0 else n - (|blocks[prior]| + HEADER)
      ensures if p == 0 then Valid() else Pending(prior, p, content) && (p == prior || p !in blocks)
    {
      var size, was := n - HEADER, blocks[prior];
      content := if size < |was| then was[..size] else was + seq(size - |was|, _ => 0);
      p := 0;
      if grants(tried) {
        p := *;
        if p == 0 || p in blocks { p := prior; }
        taken := taken + n - (|was| + HEADER);
      }
      tried := tried + 1;
    }

    method TryRealloc(prior: int, n: nat, calls2: seq<Call>) returns (p: int, content: seq<Byte>)
      requires Valid() && prior in blocks && prior != 0 && n >= HEADER
      modifies this
      ensures alarmBusy == old(alarmBusy) && alarmSet == old(alarmSet) && alarmThreshold == old(alarmThreshold)
      ensures Grown(old(log), log) && tried > old(tried) && (p != 0 <==> grants(tried - 1))
      ensures alarms == old(alarms) + if !grants(old(tried)) && alarmSet && !alarmBusy then 1 else 0
      ensures grants(old(tried)) || old(Quiet(calls2)) ==>
        tried == old(tried) + (if grants(old(tried)) then 1 else 2) && blocks == old(blocks) && log == old(log)
      ensures prior in blocks && blocks[prior] == old(blocks[prior])
      ensures |content| == n - HEADER && SharedPrefix(content, blocks[prior])
      ensures if p == 0 then Valid() else Pending(prior, p, content) && (p == prior || p !in blocks)
      decreases if alarmBusy then 0 else 1, 1
    {
      hide Total, Max, Since, Now, Truthful, Valid, Pending, SharedPrefix;
      p, content := SystemRealloc(prior, n);
      if p == 0 {
        Alarm(calls2, prior);
        p, content := SystemRealloc(prior, n);
      }
    }

    /** sqlite3_realloc of a live block, or of NULL. */
    method Realloc(prior: int, nBytes: int, calls1: seq<Call>, calls2: seq<Call>) returns (p: int)
      requires Valid() && (prior != 0 ==> prior in blocks)
      modifies this
      ensures Valid() && alarmBusy == old(alarmBusy) && alarmSet == old(alarmSet) && Grown(old(log), log)
      ensures prior != 0 && nBytes <= 0 ==> p == 0 && blocks == old(blocks) - {prior}
      ensures prior == 0 && nBytes <= 0 ==> p == 0 && blocks == old(blocks)
      ensures nBytes > 0 ==> tried > old(tried) && (p != 0 <==> grants(tried - 1))
      ensures nBytes <= 0 ==> tried == old(tried)
      ensures tried >= old(tried) && alarmThreshold == old(alarmThreshold) && (alarmBusy ==> alarms == old(alarms))
      ensures old(Quiet(calls1) && Quiet(calls2)) && nBytes > 0 ==> tried == old(tried) + (if grants(old(tried)) then 1 else 2)
      ensures old(Quiet(calls1) && Quiet(calls2)) && nBytes > 0 && prior != 0 ==>
        alarms == old(alarms) + if !alarmSet || alarmBusy then 0
          else (if old(nowUsed + nBytes - |blocks[prior]|) >= alarmThreshold then 1 else 0) + (if grants(old(tried)) then 0 else 1)
      ensures p != 0 ==> p in blocks && |blocks[p]| == nBytes
      ensures p != 0 && prior != 0 ==> SharedPrefix(blocks[p], old(blocks[prior])) && (p != prior ==> prior !in blocks)
      ensures p == 0 && prior != 0 && nBytes > 0 ==> prior in blocks && blocks[prior] == old(blocks[prior])
      ensures old(Quiet(calls1) && Quiet(calls2)) && nBytes > 0 ==>
        if p == 0 then blocks == old(blocks) && log == old(log)
        else (p == prior || p !in old(blocks)) && blocks == (old(blocks) - {prior})[p := blocks[p]] && log == old(log) + [Held(blocks)]
      decreases if alarmBusy then 0 else 1, 3
    {
      hide Total, Max, Since, Now, Truthful, Valid, Pending, SharedPrefix;
      if prior == 0 {
        NothingAtNull();
        assert blocks - {0} == blocks;
        p := Malloc(nBytes, calls1, calls2, 0);
        return;
      }
      if nBytes <= 0 {
        Free(prior);
        return 0;
      }
      var nOld := |blocks[prior]|;
      if nowUsed + nBytes - nOld >= alarmThreshold {
        Alarm(calls1, prior);
      }
      var content;
      p, content := TryRealloc(prior, nBytes + HEADER, calls2);
      if p != 0 {
        Place(prior, p, content);
      }
    }
  }

  lemma Moved(m: Blocks, prior: int, p: int, content: seq<Byte>)
    requires prior in m && (p == prior || p !in m)
    ensures Total((m - {prior})[p := content]) == Total(m) - |m[prior]| + |content|
    ensures |(m - {prior})[p := content]| == |m|
  {
    TotalWithout(m, prior);
    TotalWith(m - {prior}, p, content);
    Smaller(m, prior);
  }

  /** The counter leaves the allocator's own overhead out, though the header says it is
      included: it agrees with what the system handed out only when nothing is allocated. */
  lemma OverheadNotCounted(mem: Memory)
    requires mem.Valid()
    ensures mem.taken - mem.nowUsed == 8 * |mem.blocks|
    ensures mem.nowUsed == mem.taken <==> mem.blocks == map[]
  {
    assert |mem.blocks| == 0 <==> mem.blocks == map[];
  }

  // ------------------------------------------------------------------ whole runs

  datatype Operation =
    | DoMalloc(n: int, calls1: seq<Call>, calls2: seq<Call>)
    | DoFree(p: int)
    | DoRealloc(p: int, n: int, calls1: seq<Call>, calls2: seq<Call>)
    | DoHighwater(reset: bool)
    | DoAlarm(callback: bool, threshold: int)

  /** The log of one call, from position `i` to `j`. */
  ghost predicate LogOf(op: Operation, log: seq<Event>, i: nat, j: nat)
  {
    && i <= j <= |log|
    && if op.DoHighwater? then j == i + 1 && log[i].Answered? && log[i].reset == op.reset
       else forall k :: i <= k < j ==> log[k].Held?
  }

  ghost function Start(at: seq<nat>, first: nat, i: nat): nat
    requires i <= |at|
  {
    if i == 0 then first else at[i - 1]
  }

  /** One call. Pointers that are not live are skipped: using one is not allowed. */
  method Perform(mem: Memory, op: Operation) returns (answers: seq<int>)
    requires mem.Valid()
    modifies mem
    ensures mem.Valid() && old(mem.log) <= mem.log && LogOf(op, mem.log, |old(mem.log)|, |mem.log|)
    ensures Answers(mem.log) == Answers(old(mem.log)) + answers
  {
    hide Total, Max, Since, Now, Truthful, Answers;
    answers := [];
    match op {
      case DoMalloc(n, c1, c2) => var p := mem.Malloc(n, c1, c2, 0);
      case DoFree(p) => if p == 0 || p in mem.blocks { mem.Free(p); }
      case DoRealloc(p, n, c1, c2) => if p == 0 || p in mem.blocks { var r := mem.Realloc(p, n, c1, c2); }
      case DoHighwater(reset) =>
        var n := mem.Highwater(reset);
        answers := [n];
        Logged(old(mem.log), Answered(n, reset));
      case DoAlarm(callback, threshold) => mem.SetAlarm(callback, threshold);
    }
    if !op.DoHighwater? { GrownAnswers(old(mem.log), mem.log); }
  }

  lemma Told(mem: Memory)
    requires mem.Valid()
    ensures Truthful(mem.log)
  {
  }

  /** The log is that of the calls, one after the other. */
  ghost predicate Divided(run: seq<Operation>, at: seq<nat>, first: nat, log: seq<Event>)
  {
    && |at| <= |run| && Start(at, first, |at|) == |log|
    && forall i :: 0 <= i < |at| ==> LogOf(run[i], log, Start(at, first, i), at[i])
  }

  /** Each count is the sum over the blocks of its moment. */
  ghost predicate Counted(used: seq<int>, at: seq<nat>, log: seq<Event>)
  {
    && |used| == |at|
    && forall i :: 0 <= i < |at| ==> at[i] <= |log| && used[i] == Total(Now(log[..at[i]]))
  }

  lemma NothingYet(run: seq<Operation>, log: seq<Event>)
    ensures Divided(run, [], |log|, log) && Counted([], [], log)
  {
  }

  lemma OneMoreDivided(run: seq<Operation>, at: seq<nat>, first: nat, was: seq<Event>, log: seq<Event>)
    requires Divided(run, at, first, was) && |at| < |run| && was <= log && LogOf(run[|at|], log, |was|, |log|)
    ensures Divided(run, at + [|log|], first, log)
  {
    hide LogOf;
    var next := at + [|log|];
    forall i | 0 <= i < |next| ensures LogOf(run[i], log, Start(next, first, i), next[i]) {
      if i < |at| {
        assert Start(next, first, i) == Start(at, first, i);
        SameLog(run[i], was, log, Start(at, first, i), at[i]);
      }
    }
  }

  lemma SameLog(op: Operation, was: seq<Event>, log: seq<Event>, i: nat, j: nat)
    requires was <= log && LogOf(op, was, i, j)
    ensures LogOf(op, log, i, j)
  {
  }

  lemma OneMoreCounted(used: seq<int>, at: seq<nat>, was: seq<Event>, log: seq<Event>, n: int)
    requires Counted(used, at, was) && was <= log && n == Total(Now(log))
    ensures Counted(used + [n], at + [|log|], log)
  {
    hide Total, Now;
    var next, counts := at + [|log|], used + [n];
    forall i | 0 <= i < |next| ensures next[i] <= |log| && counts[i] == Total(Now(log[..next[i]])) {
      if i < |at| { assert log[..at[i]] == was[..at[i]]; } else { assert log[..|log|] == log; }
    }
  }

  /** Any run of calls, with whatever callbacks: what sqlite3_memory_used says after each
      call, and what the calls of sqlite3_memory_highwater answer. */
  method RunAll(mem: Memory, run: seq<Operation>) returns (used: seq<int>, answers: seq<int>, ghost at: seq<nat>)
    requires mem.Valid()
    modifies mem
    ensures mem.Valid() && old(mem.log) <= mem.log && |at| == |run| && Divided(run, at, |old(mem.log)|, mem.log)
    ensures Counted(used, at, mem.log)
    ensures Answers(mem.log) == Answers(old(mem.log)) + answers && Truthful(mem.log)
  {
    hide *;
    used, answers, at := [], [], [];
    NothingYet(run, mem.log);
    var i := 0;
    while i < |run|
      invariant 0 <= i <= |run| && |at| == i && mem.Valid() && old(mem.log) <= mem.log
      invariant Divided(run, at, |old(mem.log)|, mem.log) && Counted(used, at, mem.log)
      invariant Answers(mem.log) == Answers(old(mem.log)) + answers
    {
      ghost var was := mem.log;
      var more := Perform(mem, run[i]);
      var n := mem.Used();
      OneMoreDivided(run, at, |old(mem.log)|, was, mem.log);
      OneMoreCounted(used, at, was, mem.log, n);
      used, answers, at := used + [n], answers + more, at + [|mem.log|];
      i := i + 1;
    }
    Told(mem);
  }
}

/** Constraints pushed into virtual tables (where.c, sqlite3_index_info): the nested loop
    with the tests the code generator leaves computes the query, left joins included. */
module SqlPushdown {

  type Row = seq<int>

  /** One row of each table, outermost loop first. */
  type Env = seq<Row>

  datatype Operator = NoOperator | Eq | Lt | Le | Gt | Ge | Match | In | IsNull

  /** WhereTerm: what it says of an environment, the tables it mentions, those of them its
      right-hand side mentions, the column it constrains, whether the optimizer added it,
      the term it was derived from, the right table of the LEFT JOIN whose ON clause it is
      part of or -1, and whether its expression is marked as part of one (EP_FromJoin). */
  datatype Term = Term(sat: Env -> bool, prereqAll: set<nat>, prereqRight: set<nat>, leftCursor: int, op: Operator,
    isVirtual: bool, parent: int, join: int, fromJoin: bool)

  /** The terms, which tables are the right side of a LEFT JOIN, and the row of NULLs of
      each table. */
  datatype Clause = Clause(terms: seq<Term>, lefts: seq<bool>, nulls: seq<Row>)

  /** The WHERE clause as written, the ON clauses of inner joins included. */
  ghost predicate Whole(q: Clause, e: Env)
  {
    forall t :: 0 <= t < |q.terms| && !q.terms[t].isVirtual && q.terms[t].join < 0 ==> q.terms[t].sat(e)
  }

  /** The ON clause of the LEFT JOIN with table `k`. */
  ghost predicate On(q: Clause, k: int, e: Env)
  {
    forall t :: 0 <= t < |q.terms| && !q.terms[t].isVirtual && q.terms[t].join == k ==> q.terms[t].sat(e)
  }

  /** The analysed clause of a join. */
  ghost predicate Analysed(q: Clause)
  {
    && |q.nulls| == |q.lefts| && (q.lefts != [] ==> !q.lefts[0])
    && (forall t :: 0 <= t < |q.terms| ==> Scoped(q, t) && RestsOn(q.terms[t], |q.lefts|))
    && (forall t :: 0 <= t < |q.terms| && q.terms[t].isVirtual ==> Derived(q, t))
    // the children of a term together say what it says
    && (forall p :: 0 <= p < |q.terms| && HasChild(q.terms, p) ==> Complete(q, p))
    && (forall t, i :: 0 <= t < |q.terms| && 0 <= i < |q.lefts| && Reported(q.terms[t], i) && q.lefts[i] && q.terms[t].join < 0 ==>
          RejectsNulls(q, t, i))
  }

  /** The tables of a term: those of an ON clause are the right table and some to its left.
      Derived terms come later than their parents and belong to the same clause. The mark
      is on every term as written, but not on all derived ones: those of BETWEEN, LIKE and
      MATCH are without it. */
  predicate Scoped(q: Clause, t: nat)
    requires t < |q.terms|
  {
    var x := q.terms[t];
    && (forall i :: i in x.prereqAll ==> i < |q.lefts|)
    && (x.leftCursor >= 0 ==> x.leftCursor in x.prereqAll)
    && (x.join >= 0 ==> x.join < |q.lefts| && q.lefts[x.join] && forall i :: i in x.prereqAll ==> i <= x.join)
    && (x.fromJoin ==> x.join >= 0 && x.join in x.prereqAll)
    && (!x.isVirtual ==> (x.fromJoin <==> x.join >= 0))
    && x.parent < t && (x.parent >= 0 ==> x.isVirtual && q.terms[x.parent].join == x.join)
  }

  /** A term's value rests on the tables it mentions. */
  ghost predicate RestsOn(t: Term, n: nat)
  {
    forall e: Env, f: Env :: |e| == n && |f| <= n && (forall i :: i in t.prereqAll ==> i < |f| && e[i] == f[i]) ==>
      t.sat(e) == t.sat(f)
  }

  /** A derived term holds wherever the clause it is from holds. */
  ghost predicate Derived(q: Clause, t: nat)
    requires t < |q.terms|
  {
    forall e: Env :: |e| == |q.lefts| && (if q.terms[t].join < 0 then Whole(q, e) else On(q, q.terms[t].join, e)) ==> q.terms[t].sat(e)
  }

  ghost predicate HasChild(terms: seq<Term>, p: nat)
  {
    exists c :: 0 <= c < |terms| && terms[c].parent == p
  }

  ghost predicate Complete(q: Clause, p: nat)
    requires p < |q.terms|
  {
    forall e: Env :: |e| == |q.lefts| && (forall c :: 0 <= c < |q.terms| && q.terms[c].parent == p ==> q.terms[c].sat(e)) ==> q.terms[p].sat(e)
  }

  /** No comparison with a NULL is true. */
  ghost predicate RejectsNulls(q: Clause, t: nat, i: nat)
    requires t < |q.terms| && i < |q.lefts| == |q.nulls|
  {
    forall e: Env :: |e| == |q.lefts| && e[i] == q.nulls[i] ==> !q.terms[t].sat(e)
  }

  /** The constraints a table is told of. IS NULL is not one of them: it does not reject NULLs. */
  predicate Reported(t: Term, cursor: int)
  {
    t.leftCursor == cursor && t.op != In && t.op != IsNull
  }

  // ------------------------------------------------------------------ the loops

  /** The code of one loop: what xFilter lets through, the ON tests before the match is
      recorded, and the tests after it. */
  datatype Level = Level(filter: (Env, Row) -> bool, on: seq<nat>, tests: seq<nat>)

  predicate InRange(q: Clause, l: Level)
  {
    (forall j :: 0 <= j < |l.on| ==> l.on[j] < |q.terms|) && forall j :: 0 <= j < |l.tests| ==> l.tests[j] < |q.terms|
  }

  predicate Coded(q: Clause, levels: seq<Level>)
  {
    |levels| <= |q.lefts| == |q.nulls| && forall i :: 0 <= i < |levels| ==> InRange(q, levels[i])
  }

  /** The row counts as a match. */
  predicate Hit(q: Clause, l: Level, e: Env, r: Row)
    requires InRange(q, l)
  {
    l.filter(e, r) && forall j :: 0 <= j < |l.on| ==> q.terms[l.on[j]].sat(e + [r])
  }

  predicate Tested(q: Clause, l: Level, e: Env)
    requires InRange(q, l)
  {
    forall j :: 0 <= j < |l.tests| ==> q.terms[l.tests[j]].sat(e)
  }

  /** A match, or the row of NULLs, that passes the tests of loop `k`. */
  predicate Passes(q: Clause, l: Level, k: nat, e: Env, r: Row)
    requires InRange(q, l) && k < |q.lefts| == |q.nulls|
  {
    (Hit(q, l, e, r) || (q.lefts[k] && r == q.nulls[k])) && Tested(q, l, e + [r])
  }

  ghost predicate Reached(q: Clause, levels: seq<Level>, i: nat, e: Env)
    requires Coded(q, levels) && i <= |levels| && i <= |e|
  {
    forall k :: 0 <= k < i ==> Passes(q, levels[k], k, e[..k], e[k])
  }

  function Hits(q: Clause, l: Level, e: Env, rows: seq<Row>): seq<Row>
    requires InRange(q, l)
  {
    if rows == [] then [] else (if Hit(q, l, e, rows[0]) then [rows[0]] else []) + Hits(q, l, e, rows[1..])
  }

  /** A LEFT JOIN without a match goes on with the row of NULLs. */
  function Candidates(left: bool, null_: Row, rows: seq<Row>): seq<Row>
  {
    if left && rows == [] then [null_] else rows
  }

  /** What the generated nested loops produce. */
  function Run(q: Clause, levels: seq<Level>, tables: seq<seq<Row>>, i: nat, e: Env): seq<Env>
    requires Coded(q, levels) && |levels| == |tables| == |q.lefts| && i <= |tables|
    decreases |tables| - i, 1, 0
  {
    if i == |tables| then [e]
    else RunRows(q, levels, tables, i, e, Candidates(q.lefts[i], q.nulls[i], Hits(q, levels[i], e, tables[i])))
  }

  function RunRows(q: Clause, levels: seq<Level>, tables: seq<seq<Row>>, i: nat, e: Env, rows: seq<Row>): seq<Env>
    requires Coded(q, levels) && |levels| == |tables| == |q.lefts| && i < |tables|
    decreases |tables| - i, 0, |rows|
  {
    if rows == [] then []
    else
      (if Tested(q, levels[i], e + [rows[0]]) then Run(q, levels, tables, i + 1, e + [rows[0]]) else [])
      + RunRows(q, levels, tables, i, e, rows[1..])
  }

  // ------------------------------------------------------------------- the query

  ghost function Matching(q: Clause, i: nat, e: Env, rows: seq<Row>): seq<Row>
  {
    if rows == [] then [] else (if On(q, i, e + [rows[0]]) then [rows[0]] else []) + Matching(q, i, e, rows[1..])
  }

  /** All combinations of rows, with rows of NULLs where a LEFT JOIN finds no match. */
  ghost function Joined(q: Clause, tables: seq<seq<Row>>, i: nat, e: Env): seq<Env>
    requires |tables| == |q.lefts| == |q.nulls| && i <= |tables|
    decreases |tables| - i, 1, 0
  {
    if i == |tables| then [e]
    else JoinedRows(q, tables, i, e, Candidates(q.lefts[i], q.nulls[i], Matching(q, i, e, tables[i])))
  }

  ghost function JoinedRows(q: Clause, tables: seq<seq<Row>>, i: nat, e: Env, rows: seq<Row>): seq<Env>
    requires |tables| == |q.lefts| == |q.nulls| && i < |tables|
    decreases |tables| - i, 0, |rows|
  {
    if rows == [] then []
    else Joined(q, tables, i + 1, e + [rows[0]]) + JoinedRows(q, tables, i, e, rows[1..])
  }

  /** The answer to the query: the combinations that satisfy the WHERE clause, in order. */
  ghost function Answer(q: Clause, es: seq<Env>): seq<Env>
  {
    if es == [] then [] else (if Whole(q, es[0]) then [es[0]] else []) + Answer(q, es[1..])
  }

  lemma {:induction false} AnswerAppend(q: Clause, a: seq<Env>, b: seq<Env>)
    ensures Answer(q, a + b) == Answer(q, a) + Answer(q, b)
  {
    hide Whole;
    if a == [] {
      assert a + b == b;
    } else {
      assert (a + b)[0] == a[0] && (a + b)[1..] == a[1..] + b;
      AnswerAppend(q, a[1..], b);
    }
  }

  lemma {:induction false} AnswerNone(q: Clause, es: seq<Env>)
    requires forall e :: e in es ==> !Whole(q, e)
    ensures Answer(q, es) == []
  {
    hide Whole;
    if es != [] {
      assert es[0] in es;
      AnswerNone(q, es[1..]);
    }
  }

  ghost predicate Extends(es: seq<Env>, e: Env, n: nat)
  {
    forall x :: x in es ==> |x| == n && e <= x
  }

  lemma {:induction false} JoinedExtends(q: Clause, tables: seq<seq<Row>>, i: nat, e: Env)
    requires |tables| == |q.lefts| == |q.nulls| && i <= |tables| && |e| == i
    ensures Extends(Joined(q, tables, i, e), e, |tables|)
    decreases |tables| - i, 1, 0
  {
    hide On;
    if i < |tables| {
      JoinedRowsExtend(q, tables, i, e, Candidates(q.lefts[i], q.nulls[i], Matching(q, i, e, tables[i])));
    }
  }

  lemma {:induction false} JoinedRowsExtend(q: Clause, tables: seq<seq<Row>>, i: nat, e: Env, rows: seq<Row>)
    requires |tables| == |q.lefts| == |q.nulls| && i < |tables| && |e| == i
    ensures Extends(JoinedRows(q, tables, i, e, rows), e, |tables|)
    decreases |tables| - i, 0, |rows|
  {
    hide On;
    if rows != [] {
      JoinedExtends(q, tables, i + 1, e + [rows[0]]);
      JoinedRowsExtend(q, tables, i, e, rows[1..]);
    }
  }

  // -------------------------------------------------- why the code gives the answer

  /** What may be in an answer: the WHERE clause holds, and each right table of a LEFT JOIN
      has a match or the row of NULLs. */
  ghost predicate Possible(q: Clause, x: Env)
  {
    && |x| == |q.lefts| == |q.nulls| && Whole(q, x)
    && forall k :: 0 <= k < |q.lefts| && q.lefts[k] ==> x[k] == q.nulls[k] || On(q, k, x)
  }

  /** What the code of all loops has to be sure of. */
  ghost predicate Faithful(q: Clause, levels: seq<Level>)
    requires Coded(q, levels) && |levels| == |q.lefts|
  {
    && (forall x: Env :: |x| == |levels| && Reached(q, levels, |levels|, x) ==> Whole(q, x))
    && (forall k :: 0 <= k < |levels| ==> Gentle(q, k, levels[k]) && Generous(q, k, levels[k]) && KnowsNulls(q, k, levels[k]))
    && (forall k :: 0 <= k < |levels| ==> Sound(q, levels, k))
  }

  /** The tests of loop `k` hold wherever the WHERE clause does. */
  ghost predicate Gentle(q: Clause, k: nat, l: Level)
    requires InRange(q, l) && k < |q.lefts|
  {
    forall x: Env :: |x| == |q.lefts| && Whole(q, x) ==> Tested(q, l, x[..k] + [x[k]])
  }

  /** Loop `k` counts every match that is in an answer. */
  ghost predicate Generous(q: Clause, k: nat, l: Level)
    requires InRange(q, l) && k < |q.lefts|
  {
    forall x: Env :: Possible(q, x) && On(q, k, x) ==> Hit(q, l, x[..k], x[k])
  }

  /** What it counts as a match satisfies the ON clause. */
  ghost predicate Sound(q: Clause, levels: seq<Level>, k: nat)
    requires Coded(q, levels) && k < |levels|
  {
    forall x: Env :: |x| == |q.lefts| && Reached(q, levels, k, x) && Hit(q, levels[k], x[..k], x[k]) ==> On(q, k, x)
  }

  /** If it withholds a row that matches, then no row of NULLs in its place is in the answer. */
  ghost predicate KnowsNulls(q: Clause, k: nat, l: Level)
    requires InRange(q, l) && k < |q.lefts| == |q.nulls|
  {
    forall x: Env, y: Env :: |x| == |y| == |q.lefts| && q.lefts[k] && On(q, k, x) && !Hit(q, l, x[..k], x[k]) && y[k] == q.nulls[k] ==>
      !Whole(q, y)
  }

  /** A completion of a prefix. */
  function Filled(q: Clause, e: Env): (x: Env)
    requires |e| <= |q.nulls|
    ensures |x| == |q.nulls| && e <= x
  {
    e + q.nulls[|e|..]
  }

  /** An ON clause is decided by the rows up to its table. */
  lemma OnEarly(q: Clause, k: nat, e: Env, x: Env)
    requires Analysed(q) && k < |q.lefts| == |x| && |e| == k + 1 && e <= x
    ensures On(q, k, x) <==> On(q, k, e)
  {
    hide Derived, Complete, RejectsNulls;
    forall t | 0 <= t < |q.terms| && q.terms[t].join == k ensures q.terms[t].sat(x) == q.terms[t].sat(e) {
      assert Scoped(q, t) && RestsOn(q.terms[t], |q.lefts|);
    }
  }

  lemma LastRow(e: Env, r: Row, x: Env)
    requires e + [r] <= x
    ensures |e| < |x| && x[..|e|] == e && x[|e|] == r && x[..|e|] + [x[|e|]] == e + [r]
  {
    assert x[|e|] == (e + [r])[|e|];
  }

  lemma SamePrefix(q: Clause, levels: seq<Level>, i: nat, e: Env, x: Env)
    requires Coded(q, levels) && i <= |levels| && i <= |e| && e <= x
    ensures Reached(q, levels, i, x) <==> Reached(q, levels, i, e)
  {
    hide Passes;
    assert forall k :: 0 <= k < i ==> x[..k] == e[..k] && x[k] == e[k];
  }

  /** Each right table of a LEFT JOIN before loop `i` has a match or the row of NULLs. */
  ghost predicate Placed(q: Clause, i: nat, e: Env)
    requires i <= |e|
  {
    |q.lefts| == |q.nulls| && i <= |q.lefts| && forall k :: 0 <= k < i && q.lefts[k] ==> e[k] == q.nulls[k] || On(q, k, e[..k + 1])
  }

  lemma ReachedIsPlaced(q: Clause, levels: seq<Level>, i: nat, e: Env)
    requires Analysed(q) && Coded(q, levels) && |levels| == |q.lefts| && Faithful(q, levels) && i == |e| <= |levels| && Reached(q, levels, i, e)
    ensures Placed(q, i, e)
  {
    hide Analysed, On, Whole, Hit, Tested, Gentle, Generous, KnowsNulls;
    forall k | 0 <= k < i && q.lefts[k] && e[k] != q.nulls[k] ensures On(q, k, e[..k + 1]) {
      var f := e[..k + 1];
      assert f == e[..k] + [e[k]] && Passes(q, levels[k], k, e[..k], e[k]);
      assert forall m :: 0 <= m < k ==> f[..m] == e[..m] && f[m] == e[m];
      CountedMatches(q, levels, k, e[..k], e[k]);
    }
  }

  lemma CountedMatches(q: Clause, levels: seq<Level>, k: nat, e: Env, r: Row)
    requires Analysed(q) && Coded(q, levels) && k == |e| < |levels| == |q.lefts| && Sound(q, levels, k)
    requires Reached(q, levels, k, e + [r]) && Hit(q, levels[k], e, r)
    ensures On(q, k, e + [r])
  {
    hide Analysed, On, Hit, Reached;
    var x := Filled(q, e + [r]);
    LastRow(e, r, x);
    SamePrefix(q, levels, k, e + [r], x);
    OnEarly(q, k, e + [r], x);
  }

  /** Combinations of the join are placed. */
  lemma {:induction false} JoinedIsPlaced(q: Clause, tables: seq<seq<Row>>, i: nat, e: Env, y: Env)
    requires |tables| == |q.lefts| == |q.nulls| && i <= |tables| && |e| == i && Placed(q, i, e) && y in Joined(q, tables, i, e)
    ensures |y| == |tables| && e <= y && Placed(q, |tables|, y)
    decreases |tables| - i, 1, 0
  {
    hide On;
    JoinedExtends(q, tables, i, e);
    if i < |tables| {
      var rows := Candidates(q.lefts[i], q.nulls[i], Matching(q, i, e, tables[i]));
      MatchingMatches(q, i, e, tables[i]);
      JoinedRowsPlaced(q, tables, i, e, rows, y);
    } else {
      assert y == e;
    }
  }

  lemma {:induction false} JoinedRowsPlaced(q: Clause, tables: seq<seq<Row>>, i: nat, e: Env, rows: seq<Row>, y: Env)
    requires |tables| == |q.lefts| == |q.nulls| && i < |tables| && |e| == i && Placed(q, i, e) && y in JoinedRows(q, tables, i, e, rows)
    requires forall r :: r in rows && q.lefts[i] ==> r == q.nulls[i] || On(q, i, e + [r])
    ensures |y| == |tables| && e <= y && Placed(q, |tables|, y)
    decreases |tables| - i, 0, |rows|
  {
    hide On, Joined;
    var f := e + [rows[0]];
    if y in Joined(q, tables, i + 1, f) {
      assert forall k :: 0 <= k < i ==> f[..k + 1] == e[..k + 1] && f[k] == e[k];
      assert f[..i + 1] == f && rows[0] in rows;
      JoinedIsPlaced(q, tables, i + 1, f, y);
    } else {
      JoinedRowsPlaced(q, tables, i, e, rows[1..], y);
    }
  }

  lemma {:induction false} MatchingMatches(q: Clause, i: nat, e: Env, rows: seq<Row>)
    ensures forall r :: r in Matching(q, i, e, rows) ==> r in rows && On(q, i, e + [r])
  {
    hide On;
    if rows != [] { MatchingMatches(q, i, e, rows[1..]); }
  }

  /** A placed combination that satisfies the WHERE clause is a possible answer. */
  lemma PlacedIsPossible(q: Clause, y: Env)
    requires Analysed(q) && |y| == |q.lefts| && Placed(q, |q.lefts|, y) && Whole(q, y)
    ensures Possible(q, y)
  {
    hide Analysed, On, Whole;
    forall k | 0 <= k < |q.lefts| && q.lefts[k] && y[k] != q.nulls[k] ensures On(q, k, y) {
      OnEarly(q, k, y[..k + 1], y);
    }
  }

  /** A row in place: loop `i` counts it exactly as the query does, unless nothing with it
      is in the answer. */
  lemma RowCounts(q: Clause, levels: seq<Level>, tables: seq<seq<Row>>, i: nat, e: Env, r: Row)
    requires Analysed(q) && Coded(q, levels) && |levels| == |tables| == |q.lefts| && i < |tables| && |e| == i
    requires Faithful(q, levels) && Reached(q, levels, i, e)
    ensures Hit(q, levels[i], e, r) ==> On(q, i, e + [r])
    ensures On(q, i, e + [r]) && !Hit(q, levels[i], e, r) ==> Answer(q, Joined(q, tables, i + 1, e + [r])) == []
    ensures On(q, i, e + [r]) && !Hit(q, levels[i], e, r) && q.lefts[i] ==> forall y: Env :: |y| == |tables| && y[i] == q.nulls[i] ==> !Whole(q, y)
    ensures !Tested(q, levels[i], e + [r]) ==> Answer(q, Joined(q, tables, i + 1, e + [r])) == []
  {
    hide Analysed, Whole, On, Hit, Tested, Joined, Answer, Reached, Placed;
    var x := Filled(q, e + [r]);
    LastRow(e, r, x);
    OnEarly(q, i, e + [r], x);
    SamePrefix(q, levels, i, e, x);
    assert Generous(q, i, levels[i]) && Sound(q, levels, i) && KnowsNulls(q, i, levels[i]);
    if On(q, i, e + [r]) && !Hit(q, levels[i], e, r) { NothingWithIt(q, levels, tables, i, e, r); }
    if !Tested(q, levels[i], e + [r]) {
      JoinedExtends(q, tables, i + 1, e + [r]);
      forall y | y in Joined(q, tables, i + 1, e + [r]) ensures !Whole(q, y) {
        LastRow(e, r, y);
        assert Gentle(q, i, levels[i]);
      }
      AnswerNone(q, Joined(q, tables, i + 1, e + [r]));
    }
  }

  lemma OneMorePlaced(q: Clause, i: nat, e: Env, r: Row)
    requires |e| == i < |q.lefts| && Placed(q, i, e) && (On(q, i, e + [r]) || (q.lefts[i] ==> r == q.nulls[i]))
    ensures Placed(q, i + 1, e + [r])
  {
    hide On;
    var f := e + [r];
    assert forall k :: 0 <= k < i ==> f[..k + 1] == e[..k + 1] && f[k] == e[k];
    assert f[..i + 1] == f;
  }

  lemma NothingWithIt(q: Clause, levels: seq<Level>, tables: seq<seq<Row>>, i: nat, e: Env, r: Row)
    requires Analysed(q) && Coded(q, levels) && |levels| == |tables| == |q.lefts| && i < |tables| && |e| == i
    requires Faithful(q, levels) && Reached(q, levels, i, e) && On(q, i, e + [r]) && !Hit(q, levels[i], e, r)
    ensures Answer(q, Joined(q, tables, i + 1, e + [r])) == []
  {
    hide Analysed, Whole, On, Hit, Tested, Joined, Answer, Reached, Placed, Possible;
    var f := e + [r];
    ReachedIsPlaced(q, levels, i, e);
    OneMorePlaced(q, i, e, r);
    forall y | y in Joined(q, tables, i + 1, f) ensures !Whole(q, y) {
      JoinedIsPlaced(q, tables, i + 1, f, y);
      LastRow(e, r, y);
      OnEarly(q, i, f, y);
      assert Generous(q, i, levels[i]);
      if Whole(q, y) { PlacedIsPossible(q, y); }
    }
    AnswerNone(q, Joined(q, tables, i + 1, f));
  }

  /** The loops produce the answer. */
  lemma {:induction false} RunIsAnswer(q: Clause, levels: seq<Level>, tables: seq<seq<Row>>, i: nat, e: Env)
    requires Analysed(q) && Coded(q, levels) && |levels| == |tables| == |q.lefts| && i <= |tables| && |e| == i
    requires Faithful(q, levels) && Reached(q, levels, i, e)
    ensures Run(q, levels, tables, i, e) == Answer(q, Joined(q, tables, i, e))
    decreases |tables| - i, 2, 0
  {
    hide Analysed, Whole, On, Hit, Tested, RunRows, JoinedRows, Reached, Hits, Matching;
    if i == |tables| {
      assert [e][1..] == [] && Whole(q, e);
      assert Answer(q, [e]) == [e];
    } else {
      var hits, matching := Hits(q, levels[i], e, tables[i]), Matching(q, i, e, tables[i]);
      RowsAgree(q, levels, tables, i, e, tables[i]);
      if q.lefts[i] && hits == [] {
        NullRow(q, levels, tables, i, e, tables[i]);
      } else {
        assert Candidates(q.lefts[i], q.nulls[i], hits) == hits && Candidates(q.lefts[i], q.nulls[i], matching) == matching;
      }
    }
  }

  /** One row of the table at loop `i`. */
  lemma {:induction false} OneRow(q: Clause, levels: seq<Level>, tables: seq<seq<Row>>, i: nat, e: Env, r: Row)
    requires Analysed(q) && Coded(q, levels) && |levels| == |tables| == |q.lefts| && i < |tables| && |e| == i
    requires Faithful(q, levels) && Reached(q, levels, i, e) && (Hit(q, levels[i], e, r) || (q.lefts[i] && r == q.nulls[i]))
    ensures (if Tested(q, levels[i], e + [r]) then Run(q, levels, tables, i + 1, e + [r]) else [])
         == Answer(q, Joined(q, tables, i + 1, e + [r]))
    decreases |tables| - i, 0, 0
  {
    hide Analysed, Whole, On, Hit, Tested, Run, Joined, Answer, Faithful;
    RowCounts(q, levels, tables, i, e, r);
    if Tested(q, levels[i], e + [r]) {
      var f := e + [r];
      forall k | 0 <= k < i + 1 ensures Passes(q, levels[k], k, f[..k], f[k]) {
        assert f[..k] == e[..k];
        if k < i { assert f[k] == e[k]; }
      }
      RunIsAnswer(q, levels, tables, i + 1, f);
    }
  }

  /** Matches counted by the code against matches of the query. */
  lemma {:induction false} RowsAgree(q: Clause, levels: seq<Level>, tables: seq<seq<Row>>, i: nat, e: Env, rows: seq<Row>)
    requires Analysed(q) && Coded(q, levels) && |levels| == |tables| == |q.lefts| && i < |tables| && |e| == i
    requires Faithful(q, levels) && Reached(q, levels, i, e)
    ensures RunRows(q, levels, tables, i, e, Hits(q, levels[i], e, rows)) == Answer(q, JoinedRows(q, tables, i, e, Matching(q, i, e, rows)))
    ensures Hits(q, levels[i], e, rows) != [] ==> Matching(q, i, e, rows) != []
    decreases |tables| - i, 1, |rows|
  {
    hide Analysed, Whole, On, Hit, Tested, Run, Joined, Answer, Faithful, Reached;
    if rows == [] {
      AnswerNone(q, []);
    } else {
      var r, hits, matching := rows[0], Hits(q, levels[i], e, rows[1..]), Matching(q, i, e, rows[1..]);
      RowsAgree(q, levels, tables, i, e, rows[1..]);
      RowCounts(q, levels, tables, i, e, r);
      var x := Joined(q, tables, i + 1, e + [r]);
      AnswerAppend(q, x, JoinedRows(q, tables, i, e, matching));
      assert ([r] + matching)[1..] == matching && ([r] + matching)[0] == r;
      assert JoinedRows(q, tables, i, e, [r] + matching) == x + JoinedRows(q, tables, i, e, matching);
      if Hit(q, levels[i], e, r) {
        OneRow(q, levels, tables, i, e, r);
        assert ([r] + hits)[1..] == hits && ([r] + hits)[0] == r;
        assert RunRows(q, levels, tables, i, e, [r] + hits) == Answer(q, x) + RunRows(q, levels, tables, i, e, hits);
        assert Hits(q, levels[i], e, rows) == [r] + hits;
      } else {
        assert Hits(q, levels[i], e, rows) == [] + hits == hits;
      }
      if On(q, i, e + [r]) {
        assert Matching(q, i, e, rows) == [r] + matching;
      } else {
        assert Matching(q, i, e, rows) == [] + matching == matching;
      }
    }
  }

  /** A LEFT JOIN without a match in the code: the query has none either, or nothing with a
      row of NULLs is in the answer. */
  lemma {:induction false} NullRow(q: Clause, levels: seq<Level>, tables: seq<seq<Row>>, i: nat, e: Env, rows: seq<Row>)
    requires Analysed(q) && Coded(q, levels) && |levels| == |tables| == |q.lefts| && i < |tables| && |e| == i
    requires Faithful(q, levels) && Reached(q, levels, i, e) && q.lefts[i] && Hits(q, levels[i], e, rows) == []
    ensures RunRows(q, levels, tables, i, e, [q.nulls[i]])
         == Answer(q, JoinedRows(q, tables, i, e, Candidates(true, q.nulls[i], Matching(q, i, e, rows))))
    decreases |tables| - i, 1, |rows| + 1
  {
    hide Analysed, Whole, On, Hit, Tested, Run, Joined, Answer, Faithful, Reached;
    var none, matching := q.nulls[i], Matching(q, i, e, rows);
    assert [none][1..] == [] && [none][0] == none;
    OneRow(q, levels, tables, i, e, none);
    AnswerNone(q, []);
    if matching == [] {
      assert Joined(q, tables, i + 1, e + [none]) + [] == Joined(q, tables, i + 1, e + [none]);
    } else {
      RowsAgree(q, levels, tables, i, e, rows);
      var r := Withheld(q, levels, i, e, rows);
      RowCounts(q, levels, tables, i, e, r);
      JoinedExtends(q, tables, i + 1, e + [none]);
      forall y | y in Joined(q, tables, i + 1, e + [none]) ensures !Whole(q, y) {
        LastRow(e, none, y);
      }
      AnswerNone(q, Joined(q, tables, i + 1, e + [none]));
    }
  }

  lemma {:induction false} Withheld(q: Clause, levels: seq<Level>, i: nat, e: Env, rows: seq<Row>) returns (r: Row)
    requires Coded(q, levels) && i < |levels| && Hits(q, levels[i], e, rows) == [] && Matching(q, i, e, rows) != []
    ensures On(q, i, e + [r]) && !Hit(q, levels[i], e, r)
  {
    hide On, Hit;
    if On(q, i, e + [rows[0]]) {
      r := rows[0];
    } else {
      r := Withheld(q, levels, i, e, rows[1..]);
    }
  }

  // ------------------------------------------------------- disabling a term

  /** How many of the first `k` terms are children of `p` without code. */
  ghost function Open(terms: seq<Term>, coded: seq<bool>, p: int, k: nat): nat
    requires |coded| == |terms| && k <= |terms|
  {
    if k == 0 then 0
    else Open(terms, coded, p, k - 1) + if terms[k - 1].parent == p && !coded[k - 1] then 1 else 0
  }

  lemma {:induction false} OpenDrops(terms: seq<Term>, coded: seq<bool>, t: nat, p: int, k: nat)
    requires |coded| == |terms| && k <= |terms| && t < |terms| && !coded[t]
    ensures Open(terms, coded[t := true], p, k) == Open(terms, coded, p, k) - if t < k && terms[t].parent == p then 1 else 0
  {
    if k > 0 { OpenDrops(terms, coded, t, p, k - 1); }
  }

  lemma {:induction false} OpenNone(terms: seq<Term>, coded: seq<bool>, p: int, k: nat)
    requires |coded| == |terms| && k <= |terms|
    ensures Open(terms, coded, p, k) == 0 <==> forall c :: 0 <= c < k && terms[c].parent == p ==> coded[c]
  {
    if k > 0 { OpenNone(terms, coded, p, k - 1); }
  }

  /** A WHERE term holds in every combination the code so far accepts; so does an ON term
      disabled before its loop; any other ON term holds in every match its loop counts. */
  ghost predicate Sure(q: Clause, levels: seq<Level>, t: nat)
    requires Coded(q, levels) && t < |q.terms|
  {
    var k := q.terms[t].join;
    forall x: Env :: |x| == |q.lefts| && Accepted(q, levels, k, x) ==> q.terms[t].sat(x)
  }

  /** By the code so far, or by the match loop `k` counts. */
  ghost predicate Accepted(q: Clause, levels: seq<Level>, k: int, x: Env)
    requires Coded(q, levels) && |x| == |q.lefts|
  {
    if 0 <= k < |levels| then Reached(q, levels, k, x) && Hit(q, levels[k], x[..k], x[k]) else Reached(q, levels, |levels|, x)
  }

  /** The flags and counters of the clause while code is generated. */
  class Where {
    const q: Clause
    var coded: seq<bool>
    var nChild: seq<int>

    constructor (q: Clause, nChild: seq<int>)
      requires |nChild| == |q.terms|
      requires forall p :: 0 <= p < |q.terms| ==> nChild[p] == Open(q.terms, seq(|q.terms|, _ => false), p, |q.terms|)
      ensures this.q == q && Valid() && forall t :: 0 <= t < |q.terms| ==> !coded[t]
    {
      this.q := q;
      this.nChild := nChild;
      coded := seq(|q.terms|, _ => false);
    }

    ghost predicate Valid()
      reads this
    {
      && |coded| == |nChild| == |q.terms|
      && forall p :: 0 <= p < |q.terms| ==> nChild[p] == Open(q.terms, coded, p, |q.terms|)
    }

    /** TERM_CODED only stands on terms the code is sure of; on those of ON clauses if `clean`. */
    ghost predicate Justified(levels: seq<Level>, clean: bool)
      requires Coded(q, levels)
      reads this
    {
      |coded| == |q.terms| && forall t :: 0 <= t < |q.terms| && coded[t] && (q.terms[t].join < 0 || clean) ==> Sure(q, levels, t)
    }

    /** disableTerm: the term, and its parent once all its children are disabled; in the loop
        of a LEFT JOIN's right table terms marked as part of an ON clause only. */
    method DisableTerm(t: nat, left: bool, ghost levels: seq<Level>, ghost clean: bool)
      requires Valid() && t < |q.terms| && Analysed(q) && Coded(q, levels) && Justified(levels, clean)
      requires (!left || q.terms[t].fromJoin) && (q.terms[t].join < 0 || clean) ==> Sure(q, levels, t)
      modifies this
      ensures Valid() && Justified(levels, clean)
      ensures !left || q.terms[t].fromJoin ==> coded[t]
      ensures left && !q.terms[t].fromJoin ==> coded == old(coded)
      ensures forall k :: 0 <= k < |q.terms| && old(coded[k]) ==> coded[k]
      decreases t
    {
      hide Sure, Open, RestsOn, Derived, Complete, RejectsNulls;
      if !coded[t] && (!left || q.terms[t].fromJoin) {
        MarkCoded(t, levels, clean);
        var p := q.terms[t].parent;
        assert Scoped(q, t);
        if p >= 0 {
          nChild := nChild[p := nChild[p] - 1];
          if nChild[p] == 0 {
            OpenNone(q.terms, coded, p, |q.terms|);
            if q.terms[p].join < 0 || clean { ChildrenSuffice(q, coded, levels, t, p); }
            DisableTerm(p, left, levels, clean);
          }
        }
      }
    }

    /** Setting the flag leaves the parent's counter one behind. */
    method MarkCoded(t: nat, ghost levels: seq<Level>, ghost clean: bool)
      requires Valid() && t < |q.terms| && !coded[t] && Coded(q, levels)
      requires Justified(levels, clean) && (q.terms[t].join < 0 || clean ==> Sure(q, levels, t))
      modifies this`coded
      ensures coded == old(coded)[t := true] && Justified(levels, clean)
      ensures forall p :: 0 <= p < |q.terms| ==>
        nChild[p] == Open(q.terms, coded, p, |q.terms|) + if q.terms[t].parent == p then 1 else 0
    {
      hide Sure, Open;
      forall p | 0 <= p < |q.terms|
        ensures Open(q.terms, coded[t := true], p, |q.terms|) == Open(q.terms, coded, p, |q.terms|) - if q.terms[t].parent == p then 1 else 0
      {
        OpenDrops(q.terms, coded, t, p, |q.terms|);
      }
      coded := coded[t := true];
    }
  }

  lemma ChildrenSuffice(q: Clause, coded: seq<bool>, levels: seq<Level>, t: nat, p: nat)
    requires Analysed(q) && Coded(q, levels) && |coded| == |q.terms|
    requires t < |q.terms| && q.terms[t].parent == p < |q.terms|
    requires forall c :: 0 <= c < |q.terms| && q.terms[c].parent == p ==> coded[c]
    requires forall c :: 0 <= c < |q.terms| && coded[c] && q.terms[c].join == q.terms[p].join ==> Sure(q, levels, c)
    ensures Sure(q, levels, p)
  {
    hide Accepted, RestsOn, Derived, RejectsNulls;
    assert HasChild(q.terms, p);
    assert Complete(q, p);
    forall x: Env | |x| == |q.lefts| && Accepted(q, levels, q.terms[p].join, x) ensures q.terms[p].sat(x) {
      forall c | 0 <= c < |q.terms| && q.terms[c].parent == p ensures q.terms[c].sat(x) {
        assert Scoped(q, c) && Sure(q, levels, c);
      }
    }
  }

  // -------------------------------------------------- what a virtual table is told

  /** sqlite3_index_constraint_usage */
  datatype Usage = Usage(argvIndex: int, omit: bool)

  /** In order, the terms a table's constraints are made of. */
  ghost predicate AreConstraints(terms: seq<Term>, cursor: int, cons: seq<nat>)
  {
    && (forall k :: 0 <= k < |cons| ==> cons[k] < |terms| && Reported(terms[cons[k]], cursor))
    && (forall t :: 0 <= t < |terms| && Reported(terms[t], cursor) ==> t in cons)
    && forall j, k :: 0 <= j < k < |cons| ==> cons[j] < cons[k]
  }

  /** Argument j is the first constraint with argvIndex j, up to the first j no
      constraint has. */
  ghost predicate AreArguments(usage: seq<Usage>, argv: seq<nat>)
  {
    && |argv| <= |usage|
    && (forall j :: 0 <= j < |argv| ==> argv[j] < |usage| && usage[argv[j]].argvIndex == j + 1)
    && (forall j, k :: 0 <= j < |argv| && 0 <= k < argv[j] ==> usage[k].argvIndex != j + 1)
    && (|argv| < |usage| ==> forall k :: 0 <= k < |usage| ==> usage[k].argvIndex != |argv| + 1)
  }

  /** aConstraint: the terms bestVirtualIndex reports for a table. */
  method Constraints(terms: seq<Term>, cursor: int) returns (cons: seq<nat>)
    ensures AreConstraints(terms, cursor, cons)
    ensures forall t :: 0 <= t < |terms| && terms[t].leftCursor == cursor && terms[t].op in {Eq, Lt, Le, Gt, Ge, Match} ==> t in cons
    ensures forall k :: 0 <= k < |cons| ==> cons[k] < |terms| && terms[cons[k]].leftCursor == cursor && terms[cons[k]].op !in {In, IsNull}
  {
    cons := [];
    var i := 0;
    while i < |terms|
      invariant 0 <= i <= |terms|
      invariant forall k :: 0 <= k < |cons| ==> cons[k] < i && Reported(terms[cons[k]], cursor)
      invariant forall t :: 0 <= t < i && Reported(terms[t], cursor) ==> t in cons
      invariant forall j, k :: 0 <= j < k < |cons| ==> cons[j] < cons[k]
    {
      if Reported(terms[i], cursor) {
        assert forall t :: t in cons ==> t in cons + [i];
        cons := cons + [i];
        assert i in cons;
      }
      i := i + 1;
    }
  }

  /** The right-hand sides passed to xFilter. */
  method Arguments(usage: seq<Usage>) returns (argv: seq<nat>)
    ensures AreArguments(usage, argv)
  {
    argv := [];
    var j := 1;
    while j <= |usage|
      invariant 1 <= j <= |usage| + 1 && |argv| == j - 1
      invariant forall i :: 0 <= i < |argv| ==> argv[i] < |usage| && usage[argv[i]].argvIndex == i + 1
      invariant forall i, k :: 0 <= i < |argv| && 0 <= k < argv[i] ==> usage[k].argvIndex != i + 1
    {
      var k := 0;
      while k < |usage| && usage[k].argvIndex != j
        invariant 0 <= k <= |usage| && forall m :: 0 <= m < k ==> usage[m].argvIndex != j
      {
        k := k + 1;
      }
      if k == |usage| { break; }
      argv := argv + [k];
      j := j + 1;
    }
  }

  /** All tables of the right-hand side are to the left: pIdxCons->usable. */
  predicate Usable(t: Term, i: nat)
  {
    forall k :: k in t.prereqRight ==> k < i
  }

  /** A module's promise for loop `i`: it is passed usable constraints, every row that
      satisfies what it was passed comes back, and no row that fails a constraint it asked
      to omit. */
  ghost predicate Promise(q: Clause, i: nat, cons: seq<nat>, usage: seq<Usage>, argv: seq<nat>, filter: (Env, Row) -> bool)
    requires i < |q.lefts| && |usage| == |cons| && (forall k :: 0 <= k < |cons| ==> cons[k] < |q.terms|)
    requires forall j :: 0 <= j < |argv| ==> argv[j] < |cons|
  {
    && (forall j :: 0 <= j < |argv| ==> Usable(q.terms[cons[argv[j]]], i))
    && (forall e: Env :: |e| == |q.lefts| && (forall j :: 0 <= j < |argv| ==> q.terms[cons[argv[j]]].sat(e)) ==> filter(e[..i], e[i]))
    && (forall e: Env, k :: |e| == |q.lefts| && filter(e[..i], e[i]) && 0 <= k < |usage| && usage[k].omit ==> q.terms[cons[k]].sat(e))
  }

  /** What xBestIndex answered for a table, and what xFilter then lets through. */
  datatype Plan = Plan(usage: seq<Usage>, filter: (Env, Row) -> bool)

  /** The plan answers every constraint and its module keeps the promise. A full scan is
      the plan that uses and omits nothing. */
  ghost predicate Honest(q: Clause, i: nat, plan: Plan)
    requires i < |q.lefts|
  {
    forall cons: seq<nat> :: AreConstraints(q.terms, i, cons) ==>
      |plan.usage| == |cons|
      && forall argv: seq<nat> :: AreArguments(plan.usage, argv) ==> Promise(q, i, cons, plan.usage, argv, plan.filter)
  }

  /** Term `t` is one the module is passed or asked to omit. */
  ghost predicate Takes(cons: seq<nat>, usage: seq<Usage>, argv: seq<nat>, t: nat)
    requires |usage| == |cons| && forall j :: 0 <= j < |argv| ==> argv[j] < |cons|
  {
    (exists k :: 0 <= k < |usage| && usage[k].omit && cons[k] == t) || exists j :: 0 <= j < |argv| && cons[argv[j]] == t
  }

  /** What loop `i` is told of, as `cons` and `argv`. */
  ghost predicate Told(q: Clause, i: nat, plan: Plan, cons: seq<nat>, argv: seq<nat>)
  {
    AreConstraints(q.terms, i, cons) && AreArguments(plan.usage, argv) && |plan.usage| == |cons|
  }

  /** The module takes no term of a later ON clause. */
  ghost predicate NoLater(q: Clause, i: nat, plan: Plan)
  {
    forall cons: seq<nat>, argv: seq<nat>, t: nat :: Told(q, i, plan, cons, argv) && Takes(cons, plan.usage, argv, t) && t < |q.terms| ==>
      q.terms[t].join <= i
  }

  /** The terms of later ON clauses it takes hold in every possible answer. */
  ghost predicate LaterHold(q: Clause, i: nat, plan: Plan)
    requires i < |q.lefts| == |q.nulls|
  {
    forall cons: seq<nat>, argv: seq<nat>, t: nat :: Told(q, i, plan, cons, argv) && Takes(cons, plan.usage, argv, t) && t < |q.terms| && q.terms[t].join > i ==>
      HoldsInAnswers(q, i, t)
  }

  /** The term holds in every possible answer that has a row of table `i`. */
  ghost predicate HoldsInAnswers(q: Clause, i: nat, t: nat)
    requires i < |q.lefts| == |q.nulls| && t < |q.terms|
  {
    forall x: Env :: Possible(q, x) && (q.lefts[i] ==> x[i] != q.nulls[i]) ==> q.terms[t].sat(x)
  }

  /** Passed to the right table of a LEFT JOIN, a term of a later ON clause makes rows of
      NULLs; elsewhere it only must not lose an answer. */
  ghost predicate Fit(q: Clause, i: nat, plan: Plan)
    requires i < |q.lefts| == |q.nulls|
  {
    if q.lefts[i] then NoLater(q, i, plan) else LaterHold(q, i, plan)
  }

  /** A module that lets through no row that fails a constraint it was passed. */
  ghost predicate Strict(q: Clause, i: nat, plan: Plan)
    requires i < |q.lefts|
  {
    forall cons: seq<nat>, argv: seq<nat>, t: nat, e: Env ::
      Told(q, i, plan, cons, argv) && Takes(cons, plan.usage, argv, t) && t < |q.terms| && |e| == |q.lefts| && plan.filter(e[..i], e[i]) ==>
        q.terms[t].sat(e)
  }

  /** All tables the term mentions are in the loops up to `i`. */
  predicate Ready(t: Term, i: int)
  {
    forall k :: k in t.prereqAll ==> k <= i
  }

  // -------------------------------------------------------------- the code of a loop

  /** `l'` lets through nothing that `l` does not. */
  ghost predicate Narrower(q: Clause, l: Level, l': Level)
  {
    && InRange(q, l) && InRange(q, l')
    && (forall e: Env, r: Row :: Hit(q, l', e, r) ==> Hit(q, l, e, r))
    && forall e: Env :: Tested(q, l', e) ==> Tested(q, l, e)
  }

  /** More code is sure of everything shorter code is sure of. */
  lemma Longer(q: Clause, levels: seq<Level>, l: Level, t: nat)
    requires Coded(q, levels + [l]) && t < |q.terms|
    ensures Coded(q, levels)
    ensures Sure(q, levels, t) ==> Sure(q, levels + [l], t)
  {
    hide Passes, Hit;
    var all := levels + [l];
    assert forall i :: 0 <= i < |levels| ==> all[i] == levels[i];
    forall x: Env | |x| == |q.lefts| && Accepted(q, all, q.terms[t].join, x) ensures Accepted(q, levels, q.terms[t].join, x) {
      var m := if 0 <= q.terms[t].join < |levels| then q.terms[t].join else |levels|;
      forall k | 0 <= k < m ensures Passes(q, levels[k], k, x[..k], x[k]) {
        assert Passes(q, all[k], k, x[..k], x[k]);
      }
    }
  }

  lemma StillSure(q: Clause, levels: seq<Level>, l: Level, l': Level, t: nat)
    requires Coded(q, levels + [l]) && Coded(q, levels + [l']) && t < |q.terms| && Narrower(q, l, l')
    ensures Sure(q, levels + [l], t) ==> Sure(q, levels + [l'], t)
  {
    hide Hit, Tested;
    var a, b, j := levels + [l], levels + [l'], q.terms[t].join;
    forall x: Env | |x| == |q.lefts| && Accepted(q, b, j, x) ensures Accepted(q, a, j, x) {
      forall k | 0 <= k < (if 0 <= j < |a| then j else |a|) ensures Passes(q, a[k], k, x[..k], x[k]) {
        assert Passes(q, b[k], k, x[..k], x[k]);
      }
    }
  }

  /** A term tested in its loop, of the WHERE clause after the match is recorded, of the
      loop's own ON clause before. */
  lemma TestedIsSure(q: Clause, levels: seq<Level>, l: Level, j: nat)
    requires Analysed(q) && Coded(q, levels + [l]) && j < |q.terms| && Ready(q.terms[j], |levels|)
    requires if q.terms[j].join < 0 then j in l.tests else q.terms[j].join == |levels| && j in l.on
    ensures Sure(q, levels + [l], j)
  {
    hide Derived, Complete, RejectsNulls;
    var i, all := |levels|, levels + [l];
    assert all[i] == l;
    assert Scoped(q, j) && RestsOn(q.terms[j], |q.lefts|);
    forall x: Env | |x| == |q.lefts| && Accepted(q, all, q.terms[j].join, x) ensures q.terms[j].sat(x) {
      assert x[..i] + [x[i]] == x[..i + 1];
      assert q.terms[j].sat(x) == q.terms[j].sat(x[..i + 1]);
      if q.terms[j].join < 0 { assert Passes(q, all[i], i, x[..i], x[i]); }
    }
  }

  /** A term the module enforces, other than in the loop of a LEFT JOIN's right table one
      that is not of its ON clause. */
  lemma OmittedIsSure(q: Clause, levels: seq<Level>, cons: seq<nat>, usage: seq<Usage>, argv: seq<nat>, filter: (Env, Row) -> bool, k: nat)
    requires Analysed(q) && |levels| < |q.lefts| == |q.nulls| && |usage| == |cons| && k < |cons| && usage[k].omit
    requires (forall k :: 0 <= k < |cons| ==> cons[k] < |q.terms|) && forall j :: 0 <= j < |argv| ==> argv[j] < |cons|
    requires Promise(q, |levels|, cons, usage, argv, filter) && Coded(q, levels + [Level(filter, [], [])])
    requires AreConstraints(q.terms, |levels|, cons)
    requires !q.lefts[|levels|] || q.terms[cons[k]].join == |levels|
    ensures Sure(q, levels + [Level(filter, [], [])], cons[k])
  {
    hide RestsOn, Derived, Complete, RejectsNulls;
    var i, l := |levels|, Level(filter, [], []);
    var all := levels + [l];
    var join := q.terms[cons[k]].join;
    assert all[i] == l && Scoped(q, cons[k]) && (join < 0 || join >= i);
    forall x: Env | |x| == |q.lefts| && Accepted(q, all, join, x) ensures q.terms[cons[k]].sat(x) {
      if join != i { assert Passes(q, all[i], i, x[..i], x[i]); }
    }
  }

  /** Case 0 of the loop code: xFilter with its arguments, the omitted terms disabled. */
  method CodeFilter(w: Where, i: nat, plan: Plan, ghost levels: seq<Level>, ghost clean: bool) returns (cons: seq<nat>, argv: seq<nat>)
    requires w.Valid() && Analysed(w.q) && Coded(w.q, levels) && |levels| == i < |w.q.lefts| && w.Justified(levels, clean)
    requires Honest(w.q, i, plan) && (clean && w.q.lefts[i] ==> NoLater(w.q, i, plan))
    modifies w
    ensures Told(w.q, i, plan, cons, argv)
    ensures Coded(w.q, levels + [Level(plan.filter, [], [])])
    ensures w.Valid() && w.Justified(levels + [Level(plan.filter, [], [])], clean)
    ensures forall k :: 0 <= k < |w.q.terms| && old(w.coded[k]) ==> w.coded[k]
  {
    hide Sure, Open, Analysed, Promise, NoLater;
    cons := Constraints(w.q.terms, i);
    argv := Arguments(plan.usage);
    assert Promise(w.q, i, cons, plan.usage, argv, plan.filter);
    CodedMore(w.q, levels, Level(plan.filter, [], []));
    ghost var levels1 := levels + [Level(plan.filter, [], [])];
    forall t | 0 <= t < |w.q.terms| && w.coded[t] && (w.q.terms[t].join < 0 || clean) ensures Sure(w.q, levels1, t) {
      Longer(w.q, levels, Level(plan.filter, [], []), t);
    }
    var j := 0;
    while j < |cons|
      invariant 0 <= j <= |cons| && w.Valid() && w.Justified(levels1, clean)
      invariant forall k :: 0 <= k < |w.q.terms| && old(w.coded[k]) ==> w.coded[k]
    {
      if plan.usage[j].omit {
        if (!w.q.lefts[i] || w.q.terms[cons[j]].fromJoin) && (w.q.terms[cons[j]].join < 0 || clean) {
          if w.q.lefts[i] { OwnTerm(w.q, i, plan, cons, argv, j); }
          OmittedIsSure(w.q, levels, cons, plan.usage, argv, plan.filter, j);
        }
        w.DisableTerm(cons[j], w.q.lefts[i], levels1, clean);
      }
      j := j + 1;
    }
  }

  lemma OwnTerm(q: Clause, i: nat, plan: Plan, cons: seq<nat>, argv: seq<nat>, j: nat)
    requires Analysed(q) && Told(q, i, plan, cons, argv) && j < |cons| && plan.usage[j].omit
    requires q.terms[cons[j]].fromJoin && (q.terms[cons[j]].join < 0 || NoLater(q, i, plan))
    ensures q.terms[cons[j]].join == i
  {
    hide RestsOn, Derived, Complete, RejectsNulls;
    assert Scoped(q, cons[j]);
    assert Takes(cons, plan.usage, argv, cons[j]);
  }

  lemma CodedMore(q: Clause, levels: seq<Level>, l: Level)
    requires Analysed(q) && Coded(q, levels) && |levels| < |q.lefts| && InRange(q, l)
    ensures Coded(q, levels + [l]) && |q.lefts| == |q.nulls|
  {
    hide InRange;
  }

  /** A term the tests of loop `i` are made of. */
  predicate Testable(q: Clause, t: nat, i: nat)
    requires t < |q.terms|
  {
    !q.terms[t].isVirtual && Ready(q.terms[t], i)
  }

  /** Terms of ON clauses have their code as soon as they are ready. */
  predicate EarlierDone(q: Clause, coded: seq<bool>, i: nat)
    requires |coded| == |q.terms|
  {
    forall t :: 0 <= t < |q.terms| && !q.terms[t].isVirtual && q.terms[t].join >= 0 && Ready(q.terms[t], i - 1) ==> coded[t]
  }

  lemma OwnClause(q: Clause, coded: seq<bool>, t: nat, i: nat)
    requires Analysed(q) && |coded| == |q.terms| && EarlierDone(q, coded, i) && i < |q.lefts|
    requires t < |q.terms| && Testable(q, t, i) && !coded[t]
    ensures q.terms[t].join >= 0 ==> q.terms[t].join == i && q.lefts[i]
  {
    hide RestsOn, Derived, Complete, RejectsNulls;
    assert Scoped(q, t);
    var k := q.terms[t].join;
    assert 0 <= k < i ==> Ready(q.terms[t], i - 1);
  }

  /** The tests of one loop: first those that decide whether a row is a match, which in the
      loop of a LEFT JOIN's right table are its ON clause, then the others. */
  method CodeTests(w: Where, i: nat, filter: (Env, Row) -> bool, ghost levels: seq<Level>, ghost clean: bool) returns (on: seq<nat>, tests: seq<nat>)
    requires w.Valid() && Analysed(w.q) && Coded(w.q, levels) && |levels| == i < |w.q.lefts| && EarlierDone(w.q, w.coded, i)
    requires Coded(w.q, levels + [Level(filter, [], [])]) && w.Justified(levels + [Level(filter, [], [])], clean)
    modifies w`coded
    ensures forall k :: 0 <= k < |on| ==> on[k] < |w.q.terms| && Testable(w.q, on[k], i) && w.q.terms[on[k]].join == i
    ensures forall k :: 0 <= k < |tests| ==> tests[k] < |w.q.terms| && Testable(w.q, tests[k], i) && w.q.terms[tests[k]].join < 0
    ensures Coded(w.q, levels + [Level(filter, on, tests)]) && w.Valid() && w.Justified(levels + [Level(filter, on, tests)], clean)
    ensures forall t :: 0 <= t < |w.q.terms| && Testable(w.q, t, i) ==> w.coded[t]
    ensures forall k :: 0 <= k < |w.q.terms| && old(w.coded[k]) ==> w.coded[k]
  {
    hide Sure, Open, Analysed, Ready;
    on, tests := [], [];
    var left := w.q.lefts[i];
    var j := 0;
    while j < |w.q.terms|
      invariant 0 <= j <= |w.q.terms| && w.Valid() && EarlierDone(w.q, w.coded, i)
      invariant forall k :: 0 <= k < |on| ==> on[k] < |w.q.terms| && Testable(w.q, on[k], i) && w.q.terms[on[k]].join == i
      invariant forall k :: 0 <= k < |tests| ==> tests[k] < |w.q.terms| && Testable(w.q, tests[k], i) && w.q.terms[tests[k]].join < 0
      invariant Coded(w.q, levels + [Level(filter, on, tests)]) && w.Justified(levels + [Level(filter, on, tests)], clean)
      invariant forall t :: 0 <= t < j && Testable(w.q, t, i) && (!left || w.q.terms[t].join >= 0) ==> w.coded[t]
      invariant forall k :: 0 <= k < |w.q.terms| && old(w.coded[k]) ==> w.coded[k]
    {
      if !w.q.terms[j].isVirtual && !w.coded[j] && Ready(w.q.terms[j], i) && !(left && w.q.terms[j].join < 0) {
        OwnClause(w.q, w.coded, j, i);
        AddTest(w, Level(filter, on, tests), j, levels, clean);
        if w.q.terms[j].join < 0 { tests := tests + [j]; } else { on := on + [j]; }
      }
      j := j + 1;
    }
    if left {
      tests := CodeLateTests(w, i, filter, on, tests, levels, clean);
    }
  }

  /** After the match is recorded: what is left of the WHERE clause. */
  method CodeLateTests(w: Where, i: nat, filter: (Env, Row) -> bool, on: seq<nat>, tests0: seq<nat>, ghost levels: seq<Level>, ghost clean: bool)
    returns (tests: seq<nat>)
    requires w.Valid() && Analysed(w.q) && Coded(w.q, levels) && |levels| == i < |w.q.lefts| && EarlierDone(w.q, w.coded, i)
    requires forall k :: 0 <= k < |tests0| ==> tests0[k] < |w.q.terms| && Testable(w.q, tests0[k], i) && w.q.terms[tests0[k]].join < 0
    requires Coded(w.q, levels + [Level(filter, on, tests0)]) && w.Justified(levels + [Level(filter, on, tests0)], clean)
    requires forall t :: 0 <= t < |w.q.terms| && Testable(w.q, t, i) && w.q.terms[t].join >= 0 ==> w.coded[t]
    modifies w`coded
    ensures forall k :: 0 <= k < |tests| ==> tests[k] < |w.q.terms| && Testable(w.q, tests[k], i) && w.q.terms[tests[k]].join < 0
    ensures Coded(w.q, levels + [Level(filter, on, tests)]) && w.Valid() && w.Justified(levels + [Level(filter, on, tests)], clean)
    ensures forall t :: 0 <= t < |w.q.terms| && Testable(w.q, t, i) ==> w.coded[t]
    ensures forall k :: 0 <= k < |w.q.terms| && old(w.coded[k]) ==> w.coded[k]
  {
    hide Sure, Open, Analysed, Ready;
    tests := tests0;
    var j := 0;
    while j < |w.q.terms|
      invariant 0 <= j <= |w.q.terms| && w.Valid() && EarlierDone(w.q, w.coded, i)
      invariant forall k :: 0 <= k < |tests| ==> tests[k] < |w.q.terms| && Testable(w.q, tests[k], i) && w.q.terms[tests[k]].join < 0
      invariant Coded(w.q, levels + [Level(filter, on, tests)]) && w.Justified(levels + [Level(filter, on, tests)], clean)
      invariant forall t :: 0 <= t < |w.q.terms| && Testable(w.q, t, i) && (t < j || w.q.terms[t].join >= 0) ==> w.coded[t]
      invariant forall k :: 0 <= k < |w.q.terms| && old(w.coded[k]) ==> w.coded[k]
    {
      if !w.q.terms[j].isVirtual && !w.coded[j] && Ready(w.q.terms[j], i) {
        AddTest(w, Level(filter, on, tests), j, levels, clean);
        tests := tests + [j];
      }
      j := j + 1;
    }
  }

  /** The level with one more test, where it belongs. */
  function WithTest(q: Clause, l: Level, j: nat): Level
    requires j < |q.terms|
  {
    if q.terms[j].join < 0 then Level(l.filter, l.on, l.tests + [j]) else Level(l.filter, l.on + [j], l.tests)
  }

  lemma MoreIsNarrower(q: Clause, l: Level, j: nat)
    requires InRange(q, l) && j < |q.terms|
    ensures InRange(q, WithTest(q, l, j)) && Narrower(q, l, WithTest(q, l, j))
  {
    var l' := WithTest(q, l, j);
    assert forall k :: 0 <= k < |l.on| ==> l'.on[k] == l.on[k];
    assert forall k :: 0 <= k < |l.tests| ==> l'.tests[k] == l.tests[k];
  }

  lemma NoParent(q: Clause, j: nat)
    requires Analysed(q) && j < |q.terms| && !q.terms[j].isVirtual
    ensures q.terms[j].parent < 0
  {
    hide RestsOn, Derived, Complete, RejectsNulls;
    assert Scoped(q, j);
  }

  method AddTest(w: Where, ghost l: Level, j: nat, ghost levels: seq<Level>, ghost clean: bool)
    requires w.Valid() && Analysed(w.q) && Coded(w.q, levels) && |levels| < |w.q.lefts| && j < |w.q.terms|
    requires Coded(w.q, levels + [l]) && w.Justified(levels + [l], clean) && EarlierDone(w.q, w.coded, |levels|)
    requires !w.coded[j] && Testable(w.q, j, |levels|) && (w.q.terms[j].join >= 0 ==> w.q.terms[j].join == |levels|)
    modifies w`coded
    ensures w.coded == old(w.coded)[j := true] && w.Valid() && EarlierDone(w.q, w.coded, |levels|)
    ensures Coded(w.q, levels + [WithTest(w.q, l, j)]) && w.Justified(levels + [WithTest(w.q, l, j)], clean)
  {
    hide Sure, Open, Analysed, Narrower;
    ghost var l' := WithTest(w.q, l, j);
    ghost var i := |levels|;
    assert (levels + [l])[i] == l;
    MoreIsNarrower(w.q, l, j);
    CodedMore(w.q, levels, l');
    forall t | 0 <= t < |w.q.terms| ensures Sure(w.q, levels + [l], t) ==> Sure(w.q, levels + [l'], t) {
      StillSure(w.q, levels, l, l', t);
    }
    TestedIsSure(w.q, levels, l', j);
    NoParent(w.q, j);
    w.MarkCoded(j, levels + [l'], clean);
  }

  // ------------------------------------------------------------- all loops together

  /** A term of a clause, derived or not, holds where the clause does. */
  lemma WholeImplies(q: Clause, t: nat, e: Env)
    requires Analysed(q) && t < |q.terms| && |e| == |q.lefts|
    ensures q.terms[t].join < 0 && Whole(q, e) ==> q.terms[t].sat(e)
    ensures q.terms[t].join >= 0 && On(q, q.terms[t].join, e) ==> q.terms[t].sat(e)
  {
    if q.terms[t].isVirtual { assert Derived(q, t); }
  }

  /** What one finished loop is sure of by itself. */
  ghost predicate LevelOk(q: Clause, k: nat, l: Level, plan: Plan)
    requires k < |q.lefts| == |q.nulls|
  {
    && InRange(q, l) && l.filter == plan.filter && Gentle(q, k, l)
    && (Fit(q, k, plan) ==> Generous(q, k, l) && KnowsNulls(q, k, l))
  }

  lemma LevelIsOk(q: Clause, i: nat, cons: seq<nat>, argv: seq<nat>, plan: Plan, on: seq<nat>, tests: seq<nat>)
    requires Analysed(q) && i < |q.lefts| && Honest(q, i, plan) && Told(q, i, plan, cons, argv)
    requires forall k :: 0 <= k < |on| ==> on[k] < |q.terms| && Testable(q, on[k], i) && q.terms[on[k]].join == i
    requires forall k :: 0 <= k < |tests| ==> tests[k] < |q.terms| && Testable(q, tests[k], i) && q.terms[tests[k]].join < 0
    ensures |q.lefts| == |q.nulls| && LevelOk(q, i, Level(plan.filter, on, tests), plan)
  {
    hide Analysed, Whole, On, AreConstraints, AreArguments, Hit, Fit;
    Shaped(q);
    var l := Level(plan.filter, on, tests);
    InBounds(q.terms, i, cons, plan.usage, argv);
    assert Promise(q, i, cons, plan.usage, argv, plan.filter);
    forall x: Env | |x| == |q.lefts| && Whole(q, x) ensures Tested(q, l, x[..i] + [x[i]]) {
      WholeTests(q, i, l, x);
    }
    if Fit(q, i, plan) { FitLevel(q, i, cons, argv, plan, l); }
  }

  lemma FitLevel(q: Clause, i: nat, cons: seq<nat>, argv: seq<nat>, plan: Plan, l: Level)
    requires Analysed(q) && i < |q.lefts| == |q.nulls| && Fit(q, i, plan) && Told(q, i, plan, cons, argv)
    requires forall j :: 0 <= j < |argv| ==> argv[j] < |cons|
    requires (forall k :: 0 <= k < |cons| ==> cons[k] < |q.terms|) && Promise(q, i, cons, plan.usage, argv, plan.filter)
    requires InRange(q, l) && l.filter == plan.filter
    requires forall k :: 0 <= k < |l.on| ==> Testable(q, l.on[k], i) && q.terms[l.on[k]].join == i
    ensures Generous(q, i, l) && KnowsNulls(q, i, l)
  {
    hide Analysed, Whole, On, AreConstraints, AreArguments, Hit, NoLater, LaterHold;
    forall x: Env | |x| == |q.lefts| && On(q, i, x) && !Hit(q, l, x[..i], x[i])
      ensures exists j :: 0 <= j < |argv| && Failed(q, cons[argv[j]], i, x)
    {
      Withholds(q, i, cons, argv, plan, l, x);
    }
    forall x: Env | Possible(q, x) && On(q, i, x) ensures Hit(q, l, x[..i], x[i]) {
      if !Hit(q, l, x[..i], x[i]) {
        var j :| 0 <= j < |argv| && Failed(q, cons[argv[j]], i, x);
        TakenHolds(q, i, cons, argv, plan, j, x);
      }
    }
    forall x: Env, y: Env | |x| == |y| == |q.lefts| && q.lefts[i] && On(q, i, x) && !Hit(q, l, x[..i], x[i]) && y[i] == q.nulls[i]
      ensures !Whole(q, y)
    {
      var j :| 0 <= j < |argv| && Failed(q, cons[argv[j]], i, x);
      NotLater(q, i, cons, argv, plan, j, x);
      NullFails(q, cons[argv[j]], i, y);
    }
  }

  lemma Shaped(q: Clause)
    requires Analysed(q)
    ensures |q.lefts| == |q.nulls|
  {
    hide RestsOn, Derived, Complete, RejectsNulls, Scoped;
  }

  /** A constraint, not of the loop's own ON clause, that a row fails. */
  ghost predicate Failed(q: Clause, t: nat, i: nat, x: Env)
  {
    t < |q.terms| && q.terms[t].join != i && Reported(q.terms[t], i) && !q.terms[t].sat(x)
  }

  /** What a fit module takes, other than of the loop's own ON clause, holds in every
      possible answer. */
  lemma TakenHolds(q: Clause, i: nat, cons: seq<nat>, argv: seq<nat>, plan: Plan, j: nat, x: Env)
    requires Analysed(q) && i < |q.lefts| == |q.nulls| && Fit(q, i, plan) && Told(q, i, plan, cons, argv)
    requires (forall j :: 0 <= j < |argv| ==> argv[j] < |cons|) && forall k :: 0 <= k < |cons| ==> cons[k] < |q.terms|
    requires j < |argv| && Possible(q, x)
    ensures q.terms[cons[argv[j]]].join != i ==> q.terms[cons[argv[j]]].sat(x)
  {
    hide RestsOn, Derived, Complete, RejectsNulls;
    var t := cons[argv[j]];
    assert Takes(cons, plan.usage, argv, t) && Scoped(q, t);
    WholeImplies(q, t, x);
    assert !q.lefts[i] && q.terms[t].join > i ==> HoldsInAnswers(q, i, t);
  }

  lemma NotLater(q: Clause, i: nat, cons: seq<nat>, argv: seq<nat>, plan: Plan, j: nat, x: Env)
    requires Analysed(q) && i < |q.lefts| == |q.nulls| && q.lefts[i] && Fit(q, i, plan) && Told(q, i, plan, cons, argv)
    requires (forall j :: 0 <= j < |argv| ==> argv[j] < |cons|) && forall k :: 0 <= k < |cons| ==> cons[k] < |q.terms|
    requires j < |argv| && Failed(q, cons[argv[j]], i, x)
    ensures q.terms[cons[argv[j]]].join < 0
  {
    hide RestsOn, Derived, Complete, RejectsNulls;
    var t := cons[argv[j]];
    assert Takes(cons, plan.usage, argv, t) && Scoped(q, t);
  }

  lemma WholeTests(q: Clause, i: nat, l: Level, x: Env)
    requires Analysed(q) && i < |q.lefts| == |x| && Whole(q, x) && InRange(q, l)
    requires forall k :: 0 <= k < |l.tests| ==> Testable(q, l.tests[k], i) && q.terms[l.tests[k]].join < 0
    ensures Tested(q, l, x[..i] + [x[i]])
  {
    hide Derived, Complete, RejectsNulls, Scoped;
    assert x[..i] + [x[i]] == x[..i + 1];
    forall k | 0 <= k < |l.tests| ensures q.terms[l.tests[k]].sat(x[..i + 1]) {
      assert RestsOn(q.terms[l.tests[k]], |q.lefts|);
      assert q.terms[l.tests[k]].sat(x);
    }
  }

  /** A matching row the code does not count fails a constraint that was passed. */
  lemma Withholds(q: Clause, i: nat, cons: seq<nat>, argv: seq<nat>, plan: Plan, l: Level, x: Env)
    requires Analysed(q) && i < |q.lefts| == |x| && |plan.usage| == |cons| && InRange(q, l) && l.filter == plan.filter
    requires AreConstraints(q.terms, i, cons) && (forall j :: 0 <= j < |argv| ==> argv[j] < |cons|)
    requires Promise(q, i, cons, plan.usage, argv, plan.filter)
    requires forall k :: 0 <= k < |l.on| ==> Testable(q, l.on[k], i) && q.terms[l.on[k]].join == i
    requires On(q, i, x) && !Hit(q, l, x[..i], x[i])
    ensures exists j :: 0 <= j < |argv| && Failed(q, cons[argv[j]], i, x)
  {
    hide Derived, Complete, RejectsNulls, Scoped;
    assert x[..i] + [x[i]] == x[..i + 1];
    forall k | 0 <= k < |l.on| ensures q.terms[l.on[k]].sat(x[..i + 1]) {
      assert RestsOn(q.terms[l.on[k]], |q.lefts|);
      assert q.terms[l.on[k]].sat(x);
    }
    assert !plan.filter(x[..i], x[i]);
    var j :| 0 <= j < |argv| && !q.terms[cons[argv[j]]].sat(x);
    WholeImplies(q, cons[argv[j]], x);
    assert Failed(q, cons[argv[j]], i, x);
  }

  lemma NullFails(q: Clause, t: nat, i: nat, y: Env)
    requires Analysed(q) && i < |q.lefts| == |y| && |q.nulls| == |q.lefts| && q.lefts[i] && y[i] == q.nulls[i]
    requires t < |q.terms| && q.terms[t].join < 0 && Reported(q.terms[t], i)
    ensures !Whole(q, y)
  {
    hide RestsOn, Derived, Complete, Scoped;
    assert RejectsNulls(q, t, i);
    WholeImplies(q, t, y);
  }

  lemma InBounds(terms: seq<Term>, cursor: int, cons: seq<nat>, usage: seq<Usage>, argv: seq<nat>)
    requires AreConstraints(terms, cursor, cons) && AreArguments(usage, argv)
    ensures forall k :: 0 <= k < |cons| ==> cons[k] < |terms|
    ensures forall j :: 0 <= j < |argv| ==> argv[j] < |usage|
  {
  }

  /** What the generated code is sure of whatever the modules take. */
  ghost predicate Generated(q: Clause, plans: seq<Plan>, levels: seq<Level>)
  {
    && Coded(q, levels) && |levels| == |plans| == |q.lefts|
    && (forall k :: 0 <= k < |levels| ==> levels[k].filter == plans[k].filter && Gentle(q, k, levels[k]))
    && forall x: Env :: |x| == |levels| && Reached(q, levels, |levels|, x) ==> Whole(q, x)
  }

  /** sqlite3WhereBegin's loops over the chosen order of tables. */
  method GenerateLoops(w: Where, plans: seq<Plan>) returns (levels: seq<Level>)
    requires w.Valid() && Analysed(w.q) && |plans| == |w.q.lefts| > 0
    requires forall t :: 0 <= t < |w.q.terms| ==> !w.coded[t]
    requires forall i :: 0 <= i < |plans| ==> Honest(w.q, i, plans[i])
    modifies w
    ensures Generated(w.q, plans, levels) && |w.q.lefts| == |w.q.nulls|
    ensures (forall i :: 0 <= i < |plans| ==> Fit(w.q, i, plans[i])) ==> Faithful(w.q, levels)
  {
    hide Sure, Open, Analysed, Promise, Reached, Whole, On, Honest, LevelOk, InRange, Ready, NoLater, Fit, Told;
    levels := [];
    Shaped(w.q);
    NothingEarlier(w.q, w.coded);
    ghost var clean := forall i :: 0 <= i < |plans| && w.q.lefts[i] ==> NoLater(w.q, i, plans[i]);
    var n, i := |w.q.lefts|, 0;
    while i < n
      invariant 0 <= i <= n && |levels| == i && Coded(w.q, levels) && w.Valid() && w.Justified(levels, clean)
      invariant forall k :: 0 <= k < i ==> LevelOk(w.q, k, levels[k], plans[k])
      invariant EarlierDone(w.q, w.coded, i)
      invariant i > 0 ==> forall t :: 0 <= t < |w.q.terms| && Testable(w.q, t, i - 1) ==> w.coded[t]
    {
      var cons, argv := CodeFilter(w, i, plans[i], levels, clean);
      var on, tests := CodeTests(w, i, plans[i].filter, levels, clean);
      LevelIsOk(w.q, i, cons, argv, plans[i], on, tests);
      levels := levels + [Level(plans[i].filter, on, tests)];
      i := i + 1;
    }
    AllCoded(w.q, w.coded);
    AllGenerated(w.q, plans, levels, w.coded);
    if forall i :: 0 <= i < |plans| ==> Fit(w.q, i, plans[i]) {
      FitIsClean(w.q, plans);
      AllFaithful(w.q, plans, levels, w.coded);
    }
  }

  lemma FitIsClean(q: Clause, plans: seq<Plan>)
    requires |plans| == |q.lefts| == |q.nulls| && forall i :: 0 <= i < |plans| ==> Fit(q, i, plans[i])
    ensures forall i :: 0 <= i < |plans| && q.lefts[i] ==> NoLater(q, i, plans[i])
  {
    hide NoLater, LaterHold;
  }

  lemma NothingEarlier(q: Clause, coded: seq<bool>)
    requires Analysed(q) && |coded| == |q.terms|
    ensures EarlierDone(q, coded, 0)
  {
    hide RestsOn, Derived, Complete, RejectsNulls;
    forall t | 0 <= t < |q.terms| && !q.terms[t].isVirtual && q.terms[t].join >= 0 ensures !Ready(q.terms[t], -1) {
      assert Scoped(q, t);
    }
  }

  lemma AllCoded(q: Clause, coded: seq<bool>)
    requires Analysed(q) && |q.lefts| > 0 && |coded| == |q.terms|
    requires forall t :: 0 <= t < |q.terms| && Testable(q, t, |q.lefts| - 1) ==> coded[t]
    ensures forall t :: 0 <= t < |q.terms| && !q.terms[t].isVirtual ==> coded[t]
  {
    hide RestsOn, Derived, Complete, RejectsNulls;
    forall t | 0 <= t < |q.terms| && !q.terms[t].isVirtual ensures coded[t] {
      assert Scoped(q, t);
    }
  }

  lemma AllGenerated(q: Clause, plans: seq<Plan>, levels: seq<Level>, coded: seq<bool>)
    requires |q.lefts| == |q.nulls| == |levels| == |plans| && Coded(q, levels) && |coded| == |q.terms|
    requires forall k :: 0 <= k < |levels| ==> LevelOk(q, k, levels[k], plans[k])
    requires forall t :: 0 <= t < |q.terms| && coded[t] && q.terms[t].join < 0 ==> Sure(q, levels, t)
    requires forall t :: 0 <= t < |q.terms| && !q.terms[t].isVirtual ==> coded[t]
    ensures Generated(q, plans, levels)
  {
    hide Reached, Hit, Generous, KnowsNulls, InRange, Gentle, Fit;
    forall x: Env | |x| == |levels| && Reached(q, levels, |levels|, x) ensures Whole(q, x) {
      forall t | 0 <= t < |q.terms| && !q.terms[t].isVirtual && q.terms[t].join < 0 ensures q.terms[t].sat(x) {
        assert Sure(q, levels, t);
      }
    }
  }

  lemma AllFaithful(q: Clause, plans: seq<Plan>, levels: seq<Level>, coded: seq<bool>)
    requires Generated(q, plans, levels) && |q.lefts| == |q.nulls| && |coded| == |q.terms|
    requires forall k :: 0 <= k < |levels| ==> LevelOk(q, k, levels[k], plans[k]) && Fit(q, k, plans[k])
    requires forall t :: 0 <= t < |q.terms| && coded[t] ==> Sure(q, levels, t)
    requires forall t :: 0 <= t < |q.terms| && !q.terms[t].isVirtual ==> coded[t]
    ensures Faithful(q, levels)
  {
    hide Reached, Hit, Generous, KnowsNulls, InRange, Gentle, Fit, Whole;
    forall k | 0 <= k < |levels| ensures Sound(q, levels, k) {
      forall x: Env | |x| == |q.lefts| && Reached(q, levels, k, x) && Hit(q, levels[k], x[..k], x[k]) ensures On(q, k, x) {
        forall t | 0 <= t < |q.terms| && !q.terms[t].isVirtual && q.terms[t].join == k ensures q.terms[t].sat(x) {
          assert Sure(q, levels, t) && Accepted(q, levels, k, x);
        }
      }
    }
    forall k | 0 <= k < |levels| ensures Gentle(q, k, levels[k]) && Generous(q, k, levels[k]) && KnowsNulls(q, k, levels[k]) {
      assert LevelOk(q, k, levels[k], plans[k]);
    }
  }

  // ------------------------------------------------------- the query is preserved

  /** The loops produce the rows of the join, left joins included, that satisfy the WHERE
      clause, in order. */
  ghost predicate Right(q: Clause, levels: seq<Level>, tables: seq<seq<Row>>)
    requires Coded(q, levels) && |levels| == |tables| == |q.lefts|
  {
    Run(q, levels, tables, 0, []) == Answer(q, Joined(q, tables, 0, []))
  }

  /** What the loops produce has passed them all. */
  lemma {:induction false} RunIsReached(q: Clause, levels: seq<Level>, tables: seq<seq<Row>>, i: nat, e: Env, x: Env)
    requires Coded(q, levels) && |levels| == |tables| == |q.lefts| && i <= |tables| && |e| == i && Reached(q, levels, i, e)
    requires x in Run(q, levels, tables, i, e)
    ensures |x| == |tables| && Reached(q, levels, |levels|, x)
    decreases |tables| - i, 1, 0
  {
    hide Hit, Tested;
    if i < |tables| {
      var rows := Candidates(q.lefts[i], q.nulls[i], Hits(q, levels[i], e, tables[i]));
      HitsHit(q, levels[i], e, tables[i]);
      RowsReached(q, levels, tables, i, e, rows, x);
    }
  }

  lemma {:induction false} RowsReached(q: Clause, levels: seq<Level>, tables: seq<seq<Row>>, i: nat, e: Env, rows: seq<Row>, x: Env)
    requires Coded(q, levels) && |levels| == |tables| == |q.lefts| && i < |tables| && |e| == i && Reached(q, levels, i, e)
    requires x in RunRows(q, levels, tables, i, e, rows)
    requires forall r :: r in rows ==> Hit(q, levels[i], e, r) || (q.lefts[i] && r == q.nulls[i])
    ensures |x| == |tables| && Reached(q, levels, |levels|, x)
    decreases |tables| - i, 0, |rows|
  {
    hide Hit, Tested, Run;
    var f := e + [rows[0]];
    if Tested(q, levels[i], f) && x in Run(q, levels, tables, i + 1, f) {
      forall k | 0 <= k < i + 1 ensures Passes(q, levels[k], k, f[..k], f[k]) {
        assert f[..k] == e[..k];
        if k < i { assert f[k] == e[k]; } else { assert rows[0] in rows; }
      }
      RunIsReached(q, levels, tables, i + 1, f, x);
    } else {
      RowsReached(q, levels, tables, i, e, rows[1..], x);
    }
  }

  lemma {:induction false} HitsHit(q: Clause, l: Level, e: Env, rows: seq<Row>)
    requires InRange(q, l)
    ensures forall r :: r in Hits(q, l, e, rows) ==> r in rows && Hit(q, l, e, r)
  {
    hide Hit;
    if rows != [] { HitsHit(q, l, e, rows[1..]); }
  }

  /** Whatever the tables hold, no combination comes out in which a row of table `i` fails a
      constraint its strict module took. */
  lemma NeverComesOut(q: Clause, plans: seq<Plan>, levels: seq<Level>, tables: seq<seq<Row>>, i: nat, cons: seq<nat>, argv: seq<nat>, t: nat, x: Env)
    requires |q.lefts| == |q.nulls| == |tables| && Generated(q, plans, levels) && i < |q.lefts| == |x|
    requires Strict(q, i, plans[i]) && Told(q, i, plans[i], cons, argv) && t < |q.terms|
    requires (forall j :: 0 <= j < |argv| ==> argv[j] < |cons|) && Takes(cons, plans[i].usage, argv, t)
    requires !q.terms[t].sat(x) && (q.lefts[i] ==> x[i] != q.nulls[i])
    ensures x !in Run(q, levels, tables, 0, [])
  {
    hide Run, Told, Takes, Reached;
    ReachedTakes(q, plans, levels, i, cons, argv, t, x);
    if x in Run(q, levels, tables, 0, []) {
      NothingReached(q, levels);
      RunIsReached(q, levels, tables, 0, [], x);
    }
  }

  lemma NothingReached(q: Clause, levels: seq<Level>)
    requires Coded(q, levels)
    ensures Reached(q, levels, 0, [])
  {
  }

  lemma ReachedTakes(q: Clause, plans: seq<Plan>, levels: seq<Level>, i: nat, cons: seq<nat>, argv: seq<nat>, t: nat, x: Env)
    requires |q.lefts| == |q.nulls| && Generated(q, plans, levels) && i < |q.lefts| == |x|
    requires Strict(q, i, plans[i]) && Told(q, i, plans[i], cons, argv) && t < |q.terms|
    requires (forall j :: 0 <= j < |argv| ==> argv[j] < |cons|) && Takes(cons, plans[i].usage, argv, t)
    ensures Reached(q, levels, |levels|, x) && (q.lefts[i] ==> x[i] != q.nulls[i]) ==> q.terms[t].sat(x)
  {
    hide Told, Takes;
    if Reached(q, levels, |levels|, x) && (q.lefts[i] ==> x[i] != q.nulls[i]) {
      assert Passes(q, levels[i], i, x[..i], x[i]);
      assert plans[i].filter(x[..i], x[i]);
    }
  }

  /** Tables that hold no more than `x` has. */
  function TablesOf(q: Clause, x: Env): (tables: seq<seq<Row>>)
    requires |x| == |q.lefts| == |q.nulls|
    ensures |tables| == |x|
  {
    seq(|x|, k requires 0 <= k < |x| => if q.lefts[k] && x[k] == q.nulls[k] then [] else [x[k]])
  }

  /** Every possible answer is the answer over some tables. */
  lemma {:induction false} OnlyAnswer(q: Clause, x: Env, i: nat)
    requires Analysed(q) && Possible(q, x) && i <= |x|
    ensures Joined(q, TablesOf(q, x), i, x[..i]) == [x]
    ensures i == 0 ==> Answer(q, Joined(q, TablesOf(q, x), i, [])) == [x]
    decreases |x| - i
  {
    hide Analysed, On, Whole;
    var tables, e := TablesOf(q, x), x[..i];
    if i == |x| {
      assert e == x;
    } else {
      OnlyAnswer(q, x, i + 1);
      assert e + [x[i]] == x[..i + 1];
      OnEarly(q, i, x[..i + 1], x);
      if !q.lefts[i] { NoClause(q, i, x[..i + 1]); }
      assert Candidates(q.lefts[i], q.nulls[i], Matching(q, i, e, tables[i])) == [x[i]];
      assert [x[i]][1..] == [] && [x[i]][0] == x[i];
      assert JoinedRows(q, tables, i, e, [x[i]]) == [x] + JoinedRows(q, tables, i, e, []);
    }
    assert i == 0 ==> e == [];
    assert Answer(q, [x]) == [x] by { assert [x][1..] == [] && [x][0] == x; }
  }

  lemma NoClause(q: Clause, i: nat, e: Env)
    requires Analysed(q) && i < |q.lefts| && !q.lefts[i]
    ensures On(q, i, e)
  {
    hide RestsOn, Derived, Complete, RejectsNulls;
    forall t | 0 <= t < |q.terms| ensures q.terms[t].join != i {
      assert Scoped(q, t);
    }
  }

  /** Code that is right on all tables: what a strict module takes holds in every possible
      answer with a row of its table. A term of the WHERE clause does; one of a later ON
      clause loses every answer it fails in. */
  lemma RightTakesNoAnswer(q: Clause, plans: seq<Plan>, levels: seq<Level>, i: nat, cons: seq<nat>, argv: seq<nat>, t: nat)
    requires Analysed(q) && |q.lefts| == |q.nulls| && Generated(q, plans, levels) && i < |q.lefts|
    requires Strict(q, i, plans[i]) && Told(q, i, plans[i], cons, argv) && t < |q.terms|
    requires (forall j :: 0 <= j < |argv| ==> argv[j] < |cons|) && Takes(cons, plans[i].usage, argv, t)
    requires forall tables: seq<seq<Row>> :: |tables| == |q.lefts| ==> Right(q, levels, tables)
    ensures HoldsInAnswers(q, i, t)
  {
    hide Analysed, Strict, Told, Takes, Run, Joined, Answer, Whole, Gentle;
    forall x: Env | Possible(q, x) && (q.lefts[i] ==> x[i] != q.nulls[i]) ensures q.terms[t].sat(x) {
      assert Right(q, levels, TablesOf(q, x));
      if !q.terms[t].sat(x) {
        LosesAnswer(q, plans, levels, i, cons, argv, t, x);
      }
    }
  }

  /** The answer that is lost, and where. */
  lemma LosesAnswer(q: Clause, plans: seq<Plan>, levels: seq<Level>, i: nat, cons: seq<nat>, argv: seq<nat>, t: nat, x: Env)
    requires Analysed(q) && |q.lefts| == |q.nulls| && Generated(q, plans, levels) && i < |q.lefts|
    requires Strict(q, i, plans[i]) && Told(q, i, plans[i], cons, argv) && t < |q.terms|
    requires (forall j :: 0 <= j < |argv| ==> argv[j] < |cons|) && Takes(cons, plans[i].usage, argv, t)
    requires Possible(q, x) && !q.terms[t].sat(x) && (q.lefts[i] ==> x[i] != q.nulls[i])
    ensures Coded(q, levels) && |levels| == |q.lefts| && !Right(q, levels, TablesOf(q, x))
    ensures Answer(q, Joined(q, TablesOf(q, x), 0, [])) == [x] && x !in Run(q, levels, TablesOf(q, x), 0, [])
  {
    hide Analysed, Strict, Told, Takes, Run, Joined, Answer, Whole;
    assert x[..0] == [];
    OnlyAnswer(q, x, 0);
    NeverComesOut(q, plans, levels, TablesOf(q, x), i, cons, argv, t, x);
    assert x in [x];
  }

  /** The query is preserved, whatever constraints fit modules take over. With strict
      modules, and none of the right tables of LEFT JOINs taking a term of a later ON
      clause, the code is right on all tables exactly when the terms of later ON clauses
      that the modules took hold in every possible answer. */
  method Query(w: Where, plans: seq<Plan>) returns (levels: seq<Level>)
    requires w.Valid() && Analysed(w.q) && |plans| == |w.q.lefts| > 0
    requires forall t :: 0 <= t < |w.q.terms| ==> !w.coded[t]
    requires forall i :: 0 <= i < |plans| ==> Honest(w.q, i, plans[i])
    modifies w
    ensures Generated(w.q, plans, levels) && |w.q.lefts| == |w.q.nulls|
    ensures (forall i :: 0 <= i < |plans| ==> Fit(w.q, i, plans[i])) ==>
      forall tables: seq<seq<Row>> :: |tables| == |w.q.lefts| ==> Right(w.q, levels, tables)
    ensures (forall i :: 0 <= i < |plans| ==> Strict(w.q, i, plans[i]) && (w.q.lefts[i] ==> NoLater(w.q, i, plans[i]))) ==>
      ((forall tables: seq<seq<Row>> :: |tables| == |w.q.lefts| ==> Right(w.q, levels, tables))
        <==> forall i :: 0 <= i < |plans| && !w.q.lefts[i] ==> LaterHold(w.q, i, plans[i]))
  {
    hide Analysed, Honest, Whole, On, Passes, Faithful, NoLater, LaterHold, Strict, Run, Joined, Answer;
    levels := GenerateLoops(w, plans);
    if forall i :: 0 <= i < |plans| ==> Fit(w.q, i, plans[i]) {
      forall tables: seq<seq<Row>> | |tables| == |w.q.lefts| ensures Right(w.q, levels, tables) {
        RunIsAnswer(w.q, levels, tables, 0, []);
      }
    }
    if forall tables: seq<seq<Row>> :: |tables| == |w.q.lefts| ==> Right(w.q, levels, tables) {
      forall i | 0 <= i < |plans| && Strict(w.q, i, plans[i]) ensures LaterHold(w.q, i, plans[i]) {
        RightHoldsLater(w.q, plans, levels, i);
      }
    }
  }

  lemma RightHoldsLater(q: Clause, plans: seq<Plan>, levels: seq<Level>, i: nat)
    requires Analysed(q) && |q.lefts| == |q.nulls| == |plans| && Generated(q, plans, levels) && i < |q.lefts| && Strict(q, i, plans[i])
    requires forall tables: seq<seq<Row>> :: |tables| == |q.lefts| ==> Right(q, levels, tables)
    ensures LaterHold(q, i, plans[i])
  {
    hide Analysed, Generated, Strict, Takes, HoldsInAnswers, Right;
    forall cons: seq<nat>, argv: seq<nat>, t: nat | Told(q, i, plans[i], cons, argv) && Takes(cons, plans[i].usage, argv, t) && t < |q.terms|
      ensures HoldsInAnswers(q, i, t)
    {
      InBounds(q.terms, i, cons, plans[i].usage, argv);
      RightTakesNoAnswer(q, plans, levels, i, cons, argv, t);
    }
  }

  // ------------------------------------------------------------- what goes wrong

  /** t0 LEFT JOIN t1 ON t0.a = 5, t0 virtual: the term is usable for t0. */
  function LeftQuery(): Clause
  {
    Clause([Term(e => |e| >= 1 && e[0] == [5], {0, 1}, {}, 0, Eq, false, -1, 1, true)], [false, true], [[-1], [-1]])
  }

  /** t0 takes it, and returns exactly the rows that satisfy it. */
  function LeftPlans(): seq<Plan>
  {
    [Plan([Usage(1, false)], (e, r) => r == [5]), Plan([], (e, r) => true)]
  }

  lemma LeftQueryIsMet()
    ensures Analysed(LeftQuery()) && Usable(LeftQuery().terms[0], 0)
    ensures Possible(LeftQuery(), [[1], [-1]]) && !LeftQuery().terms[0].sat([[1], [-1]])
  {
  }

  lemma ToldLeft(cons: seq<nat>, argv: seq<nat>)
    ensures AreConstraints(LeftQuery().terms, 0, cons) ==> cons == [0]
    ensures AreArguments(LeftPlans()[0].usage, argv) ==> argv == [0]
    ensures AreConstraints(LeftQuery().terms, 1, cons) ==> cons == []
    ensures AreArguments(LeftPlans()[1].usage, argv) ==> argv == []
  {
    var q, usage := LeftQuery(), LeftPlans()[0].usage;
    assert Reported(q.terms[0], 0) && !Reported(q.terms[0], 1);
    if AreConstraints(q.terms, 0, cons) {
      assert 0 in cons;
      Short(cons, 1);
    }
    if AreConstraints(q.terms, 1, cons) && cons != [] {
      FirstIsReported(q.terms, 1, cons);
      assert false;
    }
    assert |argv| == 0 ==> usage[0].argvIndex == |argv| + 1;
  }

  lemma {:induction false} Short(s: seq<nat>, n: nat)
    requires (forall k :: 0 <= k < |s| ==> s[k] < n) && forall j, k :: 0 <= j < k < |s| ==> s[j] < s[k]
    ensures |s| <= n
  {
    if s != [] { Short(s[..|s| - 1], s[|s| - 1]); }
  }

  lemma FirstIsReported(terms: seq<Term>, cursor: int, cons: seq<nat>)
    requires AreConstraints(terms, cursor, cons) && cons != []
    ensures cons[0] < |terms| && Reported(terms[cons[0]], cursor)
  {
  }

  lemma LeftPlansAreHonest()
    ensures forall i :: 0 <= i < 2 ==> Honest(LeftQuery(), i, LeftPlans()[i]) && Strict(LeftQuery(), i, LeftPlans()[i])
  {
    hide AreConstraints, AreArguments, Promise;
    forall i, cons: seq<nat> | 0 <= i < 2 && AreConstraints(LeftQuery().terms, i, cons)
      ensures cons == (if i == 0 then [0] else []) && |LeftPlans()[i].usage| == |cons|
    {
      ToldLeft(cons, []);
    }
    forall i, argv: seq<nat> | 0 <= i < 2 && AreArguments(LeftPlans()[i].usage, argv) ensures argv == if i == 0 then [0] else [] {
      ToldLeft([], argv);
    }
    LeftPromises();
    forall i | 0 <= i < 2 ensures Honest(LeftQuery(), i, LeftPlans()[i]) && Strict(LeftQuery(), i, LeftPlans()[i]) {
    }
  }

  lemma LeftPromises()
    ensures Promise(LeftQuery(), 0, [0], LeftPlans()[0].usage, [0], LeftPlans()[0].filter)
    ensures Promise(LeftQuery(), 1, [], LeftPlans()[1].usage, [], LeftPlans()[1].filter)
  {
    forall e: Env | |e| == 2 && LeftQuery().terms[[0][[0][0]]].sat(e) ensures LeftPlans()[0].filter(e[..0], e[0]) {
      assert [0][[0][0]] == 0;
    }
  }

  /** Over [[1]] and [[7]] the answer is the row of t0 with NULLs; no code made for these
      plans produces it. */
  lemma LaterTermLosesAnswer(levels: seq<Level>)
    requires Generated(LeftQuery(), LeftPlans(), levels)
    ensures
      var q, tables := LeftQuery(), [[[1]], [[7]]];
      Answer(q, Joined(q, tables, 0, [])) == [[[1], [-1]]] && [[1], [-1]] !in Run(q, levels, tables, 0, [])
  {
    LeftQueryIsMet();
    LeftPlansAreHonest();
    LeftAnswer();
    LeftTold();
    NeverComesOut(LeftQuery(), LeftPlans(), levels, [[[1]], [[7]]], 0, [0], [0], 0, [[1], [-1]]);
  }

  lemma LeftTold()
    ensures Told(LeftQuery(), 0, LeftPlans()[0], [0], [0]) && Takes([0], LeftPlans()[0].usage, [0], 0)
  {
    assert [0][[0][0]] == 0;
  }

  lemma LeftAnswer()
    ensures Answer(LeftQuery(), Joined(LeftQuery(), [[[1]], [[7]]], 0, [])) == [[[1], [-1]]]
  {
    hide Possible, Analysed;
    var q, x: Env := LeftQuery(), [[1], [-1]];
    var tables: seq<seq<Row>> := [[[1]], [[7]]];
    var e: Env := [[1]];
    assert [] + [[1]] == e && e + [[-1]] == x;
    LeftInner();
    assert Matching(q, 0, [], [[1]]) == [[1]];
    assert JoinedRows(q, tables, 0, [], [[1]]) == Joined(q, tables, 1, e) + JoinedRows(q, tables, 0, [], []);
    assert Joined(q, tables, 0, []) == [x];
    assert Whole(q, x);
  }

  lemma LeftInner()
    ensures Joined(LeftQuery(), [[[1]], [[7]]], 1, [[1]]) == [[[1], [-1]]]
  {
    var q := LeftQuery();
    var e: Env := [[1]];
    assert !q.terms[0].sat(e + [[7]]) && !On(q, 1, e + [[7]]);
    assert Matching(q, 1, e, [[7]]) == [] && e + [[-1]] == [[1], [-1]];
    assert JoinedRows(q, [[[1]], [[7]]], 1, e, [[-1]]) == [[[1], [-1]]];
  }

  /** A match withheld from a LEFT JOIN comes back as a row of NULLs: whenever loop `i` does
      not count the match `x[i]` and the code goes through with NULLs in its place, it
      produces over some tables a combination that is not in the join. */
  lemma WithheldMatchMakesNulls(q: Clause, levels: seq<Level>, i: nat, x: Env, y: Env)
    requires Coded(q, levels) && |levels| == |q.lefts| == |x| == |y| && i < |y| && q.lefts[i]
    requires On(q, i, x[..i + 1]) && !Hit(q, levels[i], x[..i], x[i]) && x[i] != q.nulls[i]
    requires y[..i] == x[..i] && y[i] == q.nulls[i] && Reached(q, levels, |levels|, y)
    ensures
      var tables := TablesOf(q, y)[i := [x[i]]];
      |tables| == |q.lefts| && y in Run(q, levels, tables, 0, []) && y !in Joined(q, tables, 0, [])
  {
    var tables := TablesOf(q, y)[i := [x[i]]];
    assert y[..0] == [] && y[..i] + [x[i]] == x[..i + 1];
    assert [x[i]][0] == x[i] && [x[i]][1..] == [];
    assert Hits(q, levels[i], y[..i], tables[i]) == [];
    ComesOut(q, levels, tables, i, y, 0);
    NotJoined(q, tables, i, x[i], y, 0);
  }

  lemma {:induction false} ComesOut(q: Clause, levels: seq<Level>, tables: seq<seq<Row>>, i: nat, y: Env, k: nat)
    requires Coded(q, levels) && |levels| == |q.lefts| == |y| == |tables| && i < |y| && k <= |y| && Reached(q, levels, |levels|, y)
    requires forall m :: 0 <= m < |y| && m != i ==> tables[m] == TablesOf(q, y)[m]
    requires q.lefts[i] && y[i] == q.nulls[i] && Hits(q, levels[i], y[..i], tables[i]) == []
    ensures y in Run(q, levels, tables, k, y[..k])
    decreases |y| - k
  {
    hide Hit, Tested;
    var e := y[..k];
    if k == |y| {
      assert e == y;
    } else {
      ComesOut(q, levels, tables, i, y, k + 1);
      assert Passes(q, levels[k], k, y[..k], y[k]) && e + [y[k]] == y[..k + 1];
      var rows := Candidates(q.lefts[k], q.nulls[k], Hits(q, levels[k], e, tables[k]));
      assert [y[k]][0] == y[k] && [y[k]][1..] == [];
      if k != i {
        assert tables[k] == if q.lefts[k] && y[k] == q.nulls[k] then [] else [y[k]];
        if tables[k] != [] { assert Hits(q, levels[k], e, [y[k]]) == [y[k]] + Hits(q, levels[k], e, []); }
      }
      assert rows == [y[k]];
      assert RunRows(q, levels, tables, k, e, rows) == Run(q, levels, tables, k + 1, y[..k + 1]) + RunRows(q, levels, tables, k, e, []);
    }
  }

  lemma {:induction false} NotJoined(q: Clause, tables: seq<seq<Row>>, i: nat, r: Row, y: Env, k: nat)
    requires |q.lefts| == |q.nulls| == |y| == |tables| && k <= i < |y| && tables[i] == [r] && y[i] != r && On(q, i, y[..i] + [r])
    ensures y !in Joined(q, tables, k, y[..k])
    decreases i - k
  {
    hide On;
    var e := y[..k];
    var rows := Candidates(q.lefts[k], q.nulls[k], Matching(q, k, e, tables[k]));
    if k < i { NotJoined(q, tables, i, r, y, k + 1); }
    assert [r][0] == r && [r][1..] == [];
    if k == i {
      assert Matching(q, i, e, [r]) == [r] + Matching(q, i, e, []);
      assert rows == [r];
    }
    NotInRows(q, tables, k, e, rows, y);
  }

  lemma {:induction false} NotInRows(q: Clause, tables: seq<seq<Row>>, k: nat, e: Env, rows: seq<Row>, y: Env)
    requires |q.lefts| == |q.nulls| == |tables| == |y| && k < |tables| && e == y[..k]
    requires y[k] in rows ==> y !in Joined(q, tables, k + 1, y[..k + 1])
    ensures y !in JoinedRows(q, tables, k, e, rows)
    decreases |rows|
  {
    hide Joined;
    if rows != [] {
      NotInRows(q, tables, k, e, rows[1..], y);
      InJoined(q, tables, k, e, rows[0], y);
    }
  }

  lemma InJoined(q: Clause, tables: seq<seq<Row>>, k: nat, e: Env, r: Row, y: Env)
    requires |q.lefts| == |q.nulls| == |tables| && k < |tables| && |e| == k
    ensures y in Joined(q, tables, k + 1, e + [r]) ==> |y| == |tables| && y[..k + 1] == e + [r] && y[k] == r
  {
    hide Joined;
    JoinedExtends(q, tables, k + 1, e + [r]);
    if y in Joined(q, tables, k + 1, e + [r]) { LastRow(e, r, y); }
  }

  /** Were IS NULL reported like the other constraints, and its term taken by the right
      table of a LEFT JOIN, then rows of NULLs would come out in place of matches: the code
      does not tell a match withheld from no match. */
  lemma IsNullMustNotBeReported(q: Clause, levels: seq<Level>, i: nat, t: nat, x: Env, y: Env)
    requires Coded(q, levels) && |levels| == |q.lefts| == |x| == |y| && i < |y| && q.lefts[i] && t < |q.terms|
    requires q.terms[t].leftCursor == i && q.terms[t].op == IsNull
    requires forall e: Env :: |e| == |q.lefts| && levels[i].filter(e[..i], e[i]) ==> q.terms[t].sat(e)
    requires On(q, i, x[..i + 1]) && !q.terms[t].sat(x) && x[i] != q.nulls[i]
    requires y[..i] == x[..i] && y[i] == q.nulls[i] && Reached(q, levels, |levels|, y)
    ensures
      var tables := TablesOf(q, y)[i := [x[i]]];
      |tables| == |q.lefts| && y in Run(q, levels, tables, 0, []) && y !in Joined(q, tables, 0, [])
  {
    WithheldMatchMakesNulls(q, levels, i, x, y);
  }
}

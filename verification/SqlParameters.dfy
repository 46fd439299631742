/** The numbers of SQL parameters: sqlite3ExprAssignVarNumber (expr.c) and the name map of
    vdbeapi.c. A token is "?", "?" and digits, or a name with its prefix. */
module SqlParameters {
  import opened Options

  const MAX_VARIABLE_NUMBER := 999
  const INT_MAX := 0x7fff_ffff

  predicate IsDigits(s: string)
  {
    s != [] && forall i :: 0 <= i < |s| ==> '0' <= s[i] <= '9'
  }

  /** What the tokenizer produces for TK_VARIABLE. */
  predicate IsToken(t: string)
  {
    t == "?" || (|t| > 1 && if t[0] == '?' then IsDigits(t[1..]) else true)
  }

  predicate IsNamed(t: string)
  {
    |t| > 1 && t[0] != '?'
  }

  predicate IsNumbered(t: string)
  {
    |t| > 1 && t[0] == '?'
  }

  function Decimal(s: string): nat
    requires forall i :: 0 <= i < |s| ==> '0' <= s[i] <= '9'
  {
    if s == [] then 0 else 10 * Decimal(s[..|s| - 1]) + (s[|s| - 1] - '0') as int
  }

  /** atoi, which stays at INT_MAX when the digits say more. */
  function Atoi(s: string): int
    requires IsDigits(s)
  {
    if Decimal(s) > INT_MAX then INT_MAX else Decimal(s)
  }

  /** A number in decimal digits, without leading zeros. */
  function Printed(n: nat): string
  {
    if n < 10 then [('0' as int + n) as char] else Printed(n / 10) + [('0' as int + n % 10) as char]
  }

  /** Reading undoes printing, zeros in front or not. */
  lemma {:induction false} ReadsPrinted(n: nat, zeros: string)
    requires forall i :: 0 <= i < |zeros| ==> zeros[i] == '0'
    ensures IsDigits(zeros + Printed(n)) && Decimal(zeros + Printed(n)) == n
    ensures Atoi(zeros + Printed(n)) == if n <= 2147483647 then n else 2147483647
  {
    var s := zeros + Printed(n);
    if n < 10 {
      ZerosAreZero(zeros);
      assert s[..|s| - 1] == zeros;
    } else {
      ReadsPrinted(n / 10, zeros);
      assert s[..|s| - 1] == zeros + Printed(n / 10);
    }
  }

  lemma {:induction false} ZerosAreZero(zeros: string)
    requires forall i :: 0 <= i < |zeros| ==> zeros[i] == '0'
    ensures Decimal(zeros) == 0
  {
    if zeros != [] { ZerosAreZero(zeros[..|zeros| - 1]); }
  }

  // ------------------------------------------------- the definition by position

  /** Where `t` stands first. */
  function Leftmost(ts: seq<string>, t: string): (i: nat)
    requires t in ts
    ensures i < |ts| && ts[i] == t && t !in ts[..i]
  {
    if ts[0] == t then 0
    else
      var i := Leftmost(ts[1..], t) + 1;
      assert ts[..i] == [ts[0]] + ts[1..][..i - 1];
      i
  }

  /** The index of a parameter `t` with `left` to its left. */
  function Number(left: seq<string>, t: string): int
    requires IsToken(t) && forall u :: u in left ==> IsToken(u)
    decreases |left|, 1
  {
    if t == "?" then Largest(left) + 1
    else if IsNumbered(t) then Atoi(t[1..])
    else if t in left then Number(left[..Leftmost(left, t)], t)
    else Largest(left) + 1
  }

  /** A ? with a number gets that number, whatever stands to its left. */
  lemma NumberIsPrinted(left: seq<string>, n: nat)
    requires forall u :: u in left ==> IsToken(u)
    ensures
      var t := "?" + Printed(n);
      IsToken(t) && Number(left, t) == if n <= 2147483647 then n else 2147483647
  {
    ReadsPrinted(n, []);
    assert [] + Printed(n) == Printed(n);
    var t := "?" + Printed(n);
    assert t[1..] == Printed(n);
  }

  /** The largest index of the parameters in `ts`, or 0. */
  function Largest(ts: seq<string>): (r: int)
    requires forall u :: u in ts ==> IsToken(u)
    ensures r >= 0
    decreases |ts|, 0
  {
    if ts == [] then 0
    else
      var n := Number(ts[..|ts| - 1], ts[|ts| - 1]);
      var rest := Largest(ts[..|ts| - 1]);
      if n > rest then n else rest
  }

  ghost predicate Tokens(ts: seq<string>)
  {
    forall u :: u in ts ==> IsToken(u)
  }

  /** The index of parameter `k`. */
  function NumberAt(ts: seq<string>, k: nat): int
    requires k < |ts| && forall u :: u in ts ==> IsToken(u)
  {
    Number(ts[..k], ts[k])
  }

  // ------------------------------------------------------------- what it implies

  lemma {:induction false} NumberIsInLargest(ts: seq<string>, k: nat)
    requires Tokens(ts) && k < |ts|
    ensures NumberAt(ts, k) <= Largest(ts)
  {
    var front := ts[..|ts| - 1];
    if k < |ts| - 1 {
      NumberIsInLargest(front, k);
      assert front[..k] == ts[..k];
    }
  }

  /** The largest index is the index of some parameter. */
  lemma {:induction false} LargestIsANumber(ts: seq<string>) returns (k: nat)
    requires Tokens(ts) && Largest(ts) > 0
    ensures k < |ts| && NumberAt(ts, k) == Largest(ts)
  {
    var n := |ts| - 1;
    if Number(ts[..n], ts[n]) == Largest(ts) {
      k := n;
    } else {
      k := LargestIsANumber(ts[..n]);
      assert ts[..n][..k] == ts[..k];
    }
  }

  lemma {:induction false} LargestGrows(ts: seq<string>, k: nat)
    requires Tokens(ts) && k <= |ts|
    ensures Largest(ts[..k]) <= Largest(ts)
  {
    if k < |ts| {
      LargestGrows(ts[..|ts| - 1], k);
      assert ts[..|ts| - 1][..k] == ts[..k];
    } else {
      assert ts[..k] == ts;
    }
  }

  /** A bare "?" gets one more than the largest index to its left. */
  lemma BareIsFresh(ts: seq<string>, j: nat, k: nat)
    requires Tokens(ts) && j < k < |ts| && ts[k] == "?"
    ensures NumberAt(ts, j) <= Largest(ts[..k]) == NumberAt(ts, k) - 1
  {
    NumberIsInLargest(ts[..k], j);
    assert ts[..k][..j] == ts[..j];
  }

  /** Every occurrence of a name has the index of the first. */
  lemma NameKeepsNumber(ts: seq<string>, k: nat)
    requires Tokens(ts) && k < |ts| && IsNamed(ts[k])
    ensures
      var i := Leftmost(ts, ts[k]);
      i <= k && NumberAt(ts, k) == NumberAt(ts, i) == Largest(ts[..i]) + 1
  {
    var i := Leftmost(ts, ts[k]);
    if i > k { assert false; }
    if i < k {
      InPrefix(ts, k, i);
      assert ts[..k][..i] == ts[..i];
      LeftmostIs(ts[..k], ts[k], i);
    }
  }

  lemma InPrefix(ts: seq<string>, i: nat, j: nat)
    requires j < i <= |ts|
    ensures ts[j] in ts[..i]
  {
    assert ts[..i][j] == ts[j];
  }

  lemma LeftmostIs(ts: seq<string>, t: string, i: nat)
    requires i < |ts| && ts[i] == t && t !in ts[..i]
    ensures Leftmost(ts, t) == i
  {
    var j := Leftmost(ts, t);
    if j < i { assert false; }
    if i < j { assert false; }
  }

  /** Distinct names never share an index. */
  lemma DistinctNames(ts: seq<string>, j: nat, k: nat)
    requires Tokens(ts) && j < |ts| && k < |ts| && IsNamed(ts[j]) && IsNamed(ts[k]) && ts[j] != ts[k]
    ensures NumberAt(ts, j) != NumberAt(ts, k)
  {
    NameKeepsNumber(ts, j);
    NameKeepsNumber(ts, k);
    var a, b := Leftmost(ts, ts[j]), Leftmost(ts, ts[k]);
    if a < b {
      NumberIsInLargest(ts[..b], a);
      assert ts[..b][..a] == ts[..a];
    } else {
      NumberIsInLargest(ts[..a], b);
      assert ts[..a][..b] == ts[..b];
    }
  }

  /** Two parameters with one index are the same name, or one of them is numbered, or both
      are the same place. */
  lemma SharedNumber(ts: seq<string>, j: nat, k: nat)
    requires Tokens(ts) && j < |ts| && k < |ts| && NumberAt(ts, j) == NumberAt(ts, k)
    ensures j == k || IsNumbered(ts[j]) || IsNumbered(ts[k]) || (IsNamed(ts[j]) && ts[j] == ts[k])
  {
    assert ts[j] in ts && ts[k] in ts;
    if j != k && !IsNumbered(ts[j]) && !IsNumbered(ts[k]) {
      if ts[j] == "?" && j > k { BareIsFresh(ts, k, j); }
      else if ts[k] == "?" && k > j { BareIsFresh(ts, j, k); }
      else if ts[j] == "?" { NamedAfterBare(ts, j, k); }
      else if ts[k] == "?" { NamedAfterBare(ts, k, j); }
      else if ts[j] != ts[k] { DistinctNames(ts, j, k); }
    }
  }

  lemma NamedAfterBare(ts: seq<string>, b: nat, k: nat)
    requires Tokens(ts) && b < k < |ts| && ts[b] == "?" && IsNamed(ts[k])
    ensures NumberAt(ts, b) != NumberAt(ts, k)
  {
    NameKeepsNumber(ts, k);
    var i := Leftmost(ts, ts[k]);
    if i < b {
      BareIsFresh(ts, i, b);
    } else {
      assert i != b;
      NumberIsInLargest(ts[..i], b);
      assert ts[..i][..b] == ts[..b];
    }
  }

  // ------------------------------------------------------------------ the parser

  ghost predicate Listed(v: seq<(string, int)>, t: string)
  {
    exists i :: 0 <= i < |v| && v[i].0 == t
  }

  lemma ListedAppend(v: seq<(string, int)>, e: (string, int))
    ensures Listed(v + [e], e.0)
    ensures forall t :: Listed(v, t) ==> Listed(v + [e], t)
  {
    assert (v + [e])[|v|] == e;
    forall t | Listed(v, t) ensures Listed(v + [e], t) {
      var i :| 0 <= i < |v| && v[i].0 == t;
      assert (v + [e])[i] == v[i];
    }
  }

  /** The fields of Parse the numbering uses. */
  class Parse {
    var nVar: int
    var varExpr: seq<(string, int)>
    var nErr: nat

    constructor ()
      ensures Numbered([]) && nErr == 0
    {
      nVar, varExpr, nErr := 0, [], 0;
    }

    /** The parser has numbered `ts`. */
    ghost predicate Numbered(ts: seq<string>)
      reads this
    {
      && Tokens(ts) && nVar == Largest(ts)
      && (forall i :: 0 <= i < |varExpr| ==>
           varExpr[i].0 in ts && IsNamed(varExpr[i].0)
           && varExpr[i].1 == NumberAt(ts, Leftmost(ts, varExpr[i].0)))
      && forall t :: t in ts && IsNamed(t) ==> Listed(varExpr, t)
    }

    /** The scan of the names seen so far. */
    method FindName(t: string) returns (i: nat)
      ensures i <= |varExpr| && (i < |varExpr| ==> varExpr[i].0 == t)
      ensures i == |varExpr| ==> !Listed(varExpr, t)
    {
      i := 0;
      while i < |varExpr| && varExpr[i].0 != t
        invariant i <= |varExpr| && forall j :: 0 <= j < i ==> varExpr[j].0 != t
      {
        i := i + 1;
      }
    }

    /** sqlite3ExprAssignVarNumber: the one pass gives each parameter its index by
        position. */
    method AssignVarNumber(t: string, ghost ts: seq<string>) returns (iTable: int)
      requires IsToken(t) && Numbered(ts)
      modifies this
      ensures Numbered(ts + [t]) && iTable == Number(ts, t)
      ensures nErr >= old(nErr)
      ensures nErr > old(nErr) ==> iTable < 1 || Largest(ts + [t]) > MAX_VARIABLE_NUMBER
      ensures iTable < 1 || iTable > MAX_VARIABLE_NUMBER ==> nErr > 0
    {
      hide Number, Largest, Decimal, Listed;
      Extended(ts, t);
      NumberCases(ts, t);
      if |t| == 1 {
        nVar := nVar + 1;
        iTable := nVar;
      } else if t[0] == '?' {
        var i := Atoi(t[1..]);
        iTable := i;
        if i < 1 || i > MAX_VARIABLE_NUMBER {
          nErr := nErr + 1;
        }
        if i > nVar {
          nVar := i;
        }
      } else {
        var i := FindName(t);
        if i < |varExpr| { iTable := varExpr[i].1; }
        if i >= |varExpr| {
          nVar := nVar + 1;
          iTable := nVar;
          ListedAppend(varExpr, (t, iTable));
          varExpr := varExpr + [(t, iTable)];
        } else {
          Repeated(ts, t);
        }
      }
      if nErr == 0 && nVar > MAX_VARIABLE_NUMBER {
        nErr := nErr + 1;
      }
    }
  }

  /** What one more parameter does to the definitions. */
  lemma Extended(ts: seq<string>, t: string)
    requires Tokens(ts) && IsToken(t)
    ensures Tokens(ts + [t])
    ensures Largest(ts + [t]) == if Number(ts, t) > Largest(ts) then Number(ts, t) else Largest(ts)
    ensures forall u :: u in ts ==> Leftmost(ts + [t], u) == Leftmost(ts, u) && Leftmost(ts, u) < |ts|
    ensures forall k :: 0 <= k < |ts| ==> NumberAt(ts + [t], k) == NumberAt(ts, k)
    ensures t !in ts ==> Leftmost(ts + [t], t) == |ts| && NumberAt(ts + [t], |ts|) == Number(ts, t)
  {
    var us := ts + [t];
    assert us[..|ts|] == ts;
    forall u | u in ts ensures Leftmost(us, u) == Leftmost(ts, u) {
      LeftmostIs(us, u, Leftmost(ts, u));
    }
    assert forall k :: 0 <= k < |ts| ==> us[..k] == ts[..k];
    if t !in ts { LeftmostIs(us, t, |ts|); }
  }

  lemma NumberCases(ts: seq<string>, t: string)
    requires Tokens(ts) && IsToken(t)
    ensures |t| == 1 ==> t == "?" && Number(ts, t) == Largest(ts) + 1
    ensures IsNumbered(t) ==> Number(ts, t) == Atoi(t[1..])
    ensures IsNamed(t) && t !in ts ==> Number(ts, t) == Largest(ts) + 1
  {
  }

  lemma Repeated(ts: seq<string>, t: string)
    requires Tokens(ts) && t in ts && IsNamed(t)
    ensures 1 <= Number(ts, t) == NumberAt(ts, Leftmost(ts, t)) <= Largest(ts)
  {
    NameKeepsNumber(ts, Leftmost(ts, t));
    NumberIsInLargest(ts, Leftmost(ts, t));
  }

  /** Numbering a whole statement: the indices by position, the count the largest of them,
      and an error exactly when one is out of range. */
  method AssignAll(ts: seq<string>) returns (numbers: seq<int>, count: int, failed: bool)
    requires Tokens(ts)
    ensures |numbers| == |ts| && forall k :: 0 <= k < |ts| ==> numbers[k] == NumberAt(ts, k)
    ensures count == Largest(ts)
    ensures failed <==> exists k :: 0 <= k < |ts| && !(1 <= NumberAt(ts, k) <= 999)
  {
    hide Number, Largest, NumberAt;
    var p := new Parse();
    numbers := [];
    var k := 0;
    while k < |ts|
      invariant 0 <= k <= |ts| && |numbers| == k && p.Numbered(ts[..k])
      invariant forall j :: 0 <= j < k ==> numbers[j] == NumberAt(ts, j)
      invariant p.nErr > 0 <==> exists j :: 0 <= j < k && !(1 <= NumberAt(ts, j) <= MAX_VARIABLE_NUMBER)
    {
      assert ts[..k + 1] == ts[..k] + [ts[k]];
      var n := p.AssignVarNumber(ts[k], ts[..k]);
      numbers := numbers + [n];
      NumberAtIs(ts, k);
      if p.nErr > 0 { OutOfRange(ts, k); }
      k := k + 1;
    }
    assert ts[..k] == ts;
    return numbers, p.nVar, p.nErr > 0;
  }

  lemma NumberAtIs(ts: seq<string>, k: nat)
    requires Tokens(ts) && k < |ts|
    ensures NumberAt(ts, k) == Number(ts[..k], ts[k])
  {
  }

  lemma OutOfRange(ts: seq<string>, k: nat)
    requires Tokens(ts) && k < |ts|
    ensures Largest(ts[..k + 1]) > MAX_VARIABLE_NUMBER ==>
      exists j :: 0 <= j < k + 1 && NumberAt(ts, j) > MAX_VARIABLE_NUMBER
  {
    var us := ts[..k + 1];
    if Largest(us) > MAX_VARIABLE_NUMBER {
      var j := LargestIsANumber(us);
      assert us[..j] == ts[..j];
      assert NumberAt(ts, j) > MAX_VARIABLE_NUMBER;
    }
  }

  // ---------------------------------------------------------------- the name map

  /** The OP_Variable instructions: an index, and the token when it is longer than "?". */
  datatype Variable = Variable(p1: int, p4: Option<string>)

  function VariableOf(ts: seq<string>, k: nat): Variable
    requires k < |ts| && forall u :: u in ts ==> IsToken(u)
  {
    Variable(NumberAt(ts, k), if |ts[k]| > 1 then Some(ts[k]) else None)
  }

  /** The last instruction for index `i` decides its name. */
  function NameOf(ops: seq<Variable>, i: int): Option<string>
  {
    if ops == [] then None
    else if ops[|ops| - 1].p1 == i then ops[|ops| - 1].p4
    else NameOf(ops[..|ops| - 1], i)
  }

  /** createVarMap */
  method CreateVarMap(ops: seq<Variable>, nVar: nat) returns (azVar: seq<Option<string>>)
    requires forall j :: 0 <= j < |ops| ==> 0 < ops[j].p1 <= nVar
    ensures |azVar| == nVar && forall i :: 0 <= i < nVar ==> azVar[i] == NameOf(ops, i + 1)
  {
    azVar := seq(nVar, i => None);
    var j := 0;
    while j < |ops|
      invariant 0 <= j <= |ops| && |azVar| == nVar
      invariant forall i :: 0 <= i < nVar ==> azVar[i] == NameOf(ops[..j], i + 1)
    {
      assert ops[..j + 1][..j] == ops[..j];
      azVar := azVar[ops[j].p1 - 1 := ops[j].p4];
      j := j + 1;
    }
    assert ops[..j] == ops;
  }

  /** sqlite3_bind_parameter_index: the first index with this name, or 0. */
  method ParameterIndex(azVar: seq<Option<string>>, name: string) returns (r: nat)
    ensures r <= |azVar| && (r > 0 ==> azVar[r - 1] == Some(name))
    ensures forall i :: 0 <= i < |azVar| && azVar[i] == Some(name) ==> 0 < r <= i + 1
  {
    var i := 0;
    while i < |azVar|
      invariant 0 <= i <= |azVar| && forall j :: 0 <= j < i ==> azVar[j] != Some(name)
    {
      if azVar[i] == Some(name) {
        return i + 1;
      }
      i := i + 1;
    }
    return 0;
  }

  /** The instructions of a statement, in whatever order the code generator emits them. */
  function Emitted(ts: seq<string>, order: seq<nat>): seq<Variable>
    requires (forall u :: u in ts ==> IsToken(u)) && forall j :: 0 <= j < |order| ==> order[j] < |ts|
  {
    seq(|order|, j requires 0 <= j < |order| => VariableOf(ts, order[j]))
  }

  lemma {:induction false} NameComesFrom(ops: seq<Variable>, i: int) returns (j: nat)
    requires NameOf(ops, i).Some?
    ensures j < |ops| && ops[j].p1 == i && ops[j].p4 == NameOf(ops, i)
    ensures forall k :: j < k < |ops| ==> ops[k].p1 != i
  {
    var n := |ops| - 1;
    if ops[n].p1 == i {
      j := n;
    } else {
      j := NameComesFrom(ops[..n], i);
    }
  }

  lemma {:induction false} LastDecides(ops: seq<Variable>, i: int, j: nat)
    requires j < |ops| && ops[j].p1 == i && forall k :: j < k < |ops| ==> ops[k].p1 != i
    ensures NameOf(ops, i) == ops[j].p4
  {
    if j < |ops| - 1 { LastDecides(ops[..|ops| - 1], i, j); }
  }

  /** The last instruction for the index of parameter `order[j]`. */
  lemma {:induction false} LastFor(ops: seq<Variable>, i: int) returns (j: nat)
    requires exists k :: 0 <= k < |ops| && ops[k].p1 == i
    ensures j < |ops| && ops[j].p1 == i && forall k :: j < k < |ops| ==> ops[k].p1 != i
  {
    var n := |ops| - 1;
    if ops[n].p1 == i {
      j := n;
    } else {
      assert exists k :: 0 <= k < n && ops[..n][k].p1 == i;
      j := LastFor(ops[..n], i);
    }
  }

  /** Looking a name up gives its index exactly when the last instruction for that index
      is not a ?NNN; otherwise 0, although the name is there. */
  lemma LookupOfName(ts: seq<string>, order: seq<nat>, j: nat, azVar: seq<Option<string>>, r: nat)
    requires Tokens(ts) && (forall j :: 0 <= j < |order| ==> order[j] < |ts|)
    requires j < |order| && IsNamed(ts[order[j]])
    requires |azVar| == Largest(ts) && forall i :: 0 <= i < |azVar| ==> azVar[i] == NameOf(Emitted(ts, order), i + 1)
    requires r <= |azVar| && (r > 0 ==> azVar[r - 1] == Some(ts[order[j]]))
    requires forall i :: 0 <= i < |azVar| && azVar[i] == Some(ts[order[j]]) ==> 0 < r <= i + 1
    ensures r == NumberAt(ts, order[j]) || r == 0
    ensures r == 0 <==> LastIsNumbered(ts, order, NumberAt(ts, order[j]))
  {
    hide Number, Largest, NumberAt, NameOf, Emitted, LastIsNumbered;
    var name, n, ops := ts[order[j]], NumberAt(ts, order[j]), Emitted(ts, order);
    NameInRange(ts, order[j]);
    NamedAtNumber(ts, order, j);
    if r > 0 { NamedOnlyThere(ts, order, j, r); }
    assert azVar[n - 1] == NameOf(ops, n);
  }

  /** The index of a name carries it unless a ?NNN comes last. */
  lemma NamedAtNumber(ts: seq<string>, order: seq<nat>, j: nat)
    requires Tokens(ts) && (forall j :: 0 <= j < |order| ==> order[j] < |ts|)
    requires j < |order| && IsNamed(ts[order[j]])
    ensures
      var n := NumberAt(ts, order[j]);
      NameOf(Emitted(ts, order), n) == Some(ts[order[j]]) <==> !LastIsNumbered(ts, order, n)
  {
    hide Number, Largest, NumberAt, NameOf;
    var n, ops := NumberAt(ts, order[j]), Emitted(ts, order);
    assert ops[j].p1 == n;
    var last := LastFor(ops, n);
    LastDecides(ops, n, last);
    assert forall i :: 0 <= i < |order| ==> ops[i].p1 == NumberAt(ts, order[i]);
    SharedNumber(ts, order[j], order[last]);
    assert ts[order[last]] in ts;
    if LastIsNumbered(ts, order, n) {
      var k :| 0 <= k < |order| && NumberAt(ts, order[k]) == n && IsNumbered(ts[order[k]])
        && forall i :: k < i < |order| ==> NumberAt(ts, order[i]) != n;
      assert k == last;
    }
  }

  /** No other index carries it. */
  lemma NamedOnlyThere(ts: seq<string>, order: seq<nat>, j: nat, i: int)
    requires Tokens(ts) && (forall j :: 0 <= j < |order| ==> order[j] < |ts|)
    requires j < |order| && IsNamed(ts[order[j]]) && NameOf(Emitted(ts, order), i) == Some(ts[order[j]])
    ensures i == NumberAt(ts, order[j])
  {
    hide Number, Largest, NumberAt, NameOf;
    var k := NameComesFrom(Emitted(ts, order), i);
    NameFixesNumber(ts, order[k], order[j]);
  }

  /** The last instruction for index `n` comes from a ?NNN. */
  ghost predicate LastIsNumbered(ts: seq<string>, order: seq<nat>, n: int)
    requires Tokens(ts) && forall j :: 0 <= j < |order| ==> order[j] < |ts|
  {
    exists k :: 0 <= k < |order| && NumberAt(ts, order[k]) == n && IsNumbered(ts[order[k]])
      && forall i :: k < i < |order| ==> NumberAt(ts, order[i]) != n
  }

  lemma NameInRange(ts: seq<string>, k: nat)
    requires Tokens(ts) && k < |ts| && IsNamed(ts[k])
    ensures 1 <= NumberAt(ts, k) <= Largest(ts)
  {
    NameKeepsNumber(ts, k);
    NumberIsInLargest(ts, k);
  }

  lemma NameFixesNumber(ts: seq<string>, j: nat, k: nat)
    requires Tokens(ts) && j < |ts| && k < |ts| && IsNamed(ts[j]) && ts[j] == ts[k]
    ensures NumberAt(ts, j) == NumberAt(ts, k)
  {
    NameKeepsNumber(ts, j);
    NameKeepsNumber(ts, k);
  }

  /** Without ?NNN every emitted name is found under its index. */
  lemma NamesFoundWithoutNumbers(ts: seq<string>, order: seq<nat>, j: nat, azVar: seq<Option<string>>, r: nat)
    requires Tokens(ts) && (forall j :: 0 <= j < |order| ==> order[j] < |ts|)
    requires j < |order| && IsNamed(ts[order[j]]) && forall u :: u in ts ==> !IsNumbered(u)
    requires |azVar| == Largest(ts) && forall i :: 0 <= i < |azVar| ==> azVar[i] == NameOf(Emitted(ts, order), i + 1)
    requires r <= |azVar| && (r > 0 ==> azVar[r - 1] == Some(ts[order[j]]))
    requires forall i :: 0 <= i < |azVar| && azVar[i] == Some(ts[order[j]]) ==> 0 < r <= i + 1
    ensures r == NumberAt(ts, order[j])
  {
    LookupOfName(ts, order, j, azVar, r);
    assert forall k :: 0 <= k < |order| ==> ts[order[k]] in ts;
  }

  /** ":a" takes index 1 and "?1" shares it; with "?1" emitted last, ":a" is not found. */
  lemma NumberHidesName()
    ensures
      var ts := [":a", "?1"];
      && Tokens(ts) && NumberAt(ts, 0) == 1 && NumberAt(ts, 1) == 1
      && LastIsNumbered(ts, [0, 1], 1) && NameOf(Emitted(ts, [0, 1]), 1) == Some("?1")
  {
    var ts := [":a", "?1"];
    assert ts[..0] == [] && ts[..1] == [":a"];
    assert Largest([]) == 0;
    assert "?1"[1..] == "1" && Decimal("1") == 10 * Decimal("") + 1;
    assert NumberAt(ts, 0) == 1 && NumberAt(ts, 1) == 1;
    var order: seq<nat> := [0, 1];
    assert order[1] == 1 && IsNumbered(ts[order[1]]);
    var ops := Emitted(ts, order);
    assert ops[|ops| - 1] == VariableOf(ts, 1);
  }
}

/** Whole runs of edits: every state is a forest until the first request that is not
    safe succeeds, and that request breaks it. */
module DomRun {
  import opened DomForest
  import opened DomEdit

  datatype Op =
    | Append(parent: Node?, child: Node?)
    | Insert(parent: Node?, child: Node?, ref: Node?)
    | Replace(parent: Node?, child: Node?, ref: Node?)
    | Remove(parent: Node?, child: Node?)

  ghost predicate Operands(op: Op, nodes: set<Node>)
  {
    Known(op.parent, nodes) && Known(op.child, nodes) && ((op.Insert? || op.Replace?) ==> Known(op.ref, nodes))
  }

  /** What a caller can check before the call: the child is detached or already in this
      parent's list, is not the parent, and is not inserted before itself. */
  predicate Safe(op: Op)
    reads op.child
  {
    op.parent != null && op.child != null ==>
      || op.Remove?
      || (&& op.child != op.parent && (op.child.parentNode == null || op.child.parentNode == op.parent)
          && (op.Insert? ==> op.child != op.ref))
  }

  /** The same, of a recorded state. */
  ghost predicate SafeIn(s: State, op: Op)
  {
    op.parent != null && op.child != null && op.child in s ==>
      op.Remove? || (Movable(s, op.parent, op.child) && (op.Insert? ==> op.child != op.ref))
  }

  /** One call. */
  method Perform(op: Op, ghost nodes: set<Node>) returns (ret: Code)
    requires Forest(Snapshot(nodes)) && Operands(op, nodes)
    modifies nodes
    ensures ret != Success ==> Snapshot(nodes) == old(Snapshot(nodes))
    ensures Forest(Snapshot(nodes)) <==> ret != Success || old(Safe(op))
  {
    hide Linked, Ranked, Refused, AllowChildren, Objection, AppendKids, InsertKids, ReplaceKids, Detached, Unlinked;
    ghost var kids, h :| Shape(Snapshot(nodes), kids, h);
    match op {
      case Append(p, c) => ret := AppendChild(p, c, nodes, kids, h);
      case Insert(p, c, r) => ret := InsertBefore(p, c, r, nodes, kids, h);
      case Replace(p, c, r) =>
        var removed;
        ret, removed := ReplaceChild(p, c, r, nodes, kids, h);
      case Remove(p, c) =>
        if c != null { SiblingsInside(Snapshot(nodes), kids, c); }
        var removed;
        ret, removed := RemoveChild(p, c, nodes, kids, h);
        if ret == Success {
          assert Shape(Snapshot(nodes), Detached(old(Snapshot(nodes)), kids, c), h);
        }
    }
  }

  /** A run, stopped when a call breaks the forest: `safe[i]` is what the check says
      before call `i`, `trace[i]` the state then. */
  method Run(ops: seq<Op>, ghost nodes: set<Node>)
    returns (done: nat, rets: seq<Code>, safe: seq<bool>, ghost trace: seq<State>)
    requires Forest(Snapshot(nodes)) && forall i :: 0 <= i < |ops| ==> Operands(ops[i], nodes)
    modifies nodes
    ensures done <= |ops| && |trace| == |rets| == |safe| == if done < |ops| then done + 1 else done
    ensures forall i :: 0 <= i < |trace| ==> Forest(trace[i]) && trace[i].Keys == nodes
    ensures forall i :: 0 <= i < |trace| ==> safe[i] == SafeIn(trace[i], ops[i])
    ensures forall i :: 0 <= i < done ==> rets[i] != Success || safe[i]
    ensures done < |ops| ==> rets[done] == Success && !safe[done]
    ensures Forest(Snapshot(nodes)) <==> done == |ops|
  {
    hide Forest;
    done, rets, safe, trace := 0, [], [], [];
    while done < |ops|
      invariant done <= |ops| && |trace| == |rets| == |safe| == done && Forest(Snapshot(nodes))
      invariant forall i :: 0 <= i < |trace| ==> Forest(trace[i]) && trace[i].Keys == nodes
      invariant forall i :: 0 <= i < |trace| ==> safe[i] == SafeIn(trace[i], ops[i])
      invariant forall i :: 0 <= i < done ==> rets[i] != Success || safe[i]
    {
      trace := trace + [Snapshot(nodes)];
      safe := safe + [Safe(ops[done])];
      var ret := Perform(ops[done], nodes);
      rets := rets + [ret];
      if ret == Success && !safe[done] { return; }
      done := done + 1;
    }
  }
}

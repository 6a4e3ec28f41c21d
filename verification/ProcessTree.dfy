/** The process-tree worklist behind automatic port detection (cli/src/run.rs,
    detect_network_processes), on an arbitrary process table: a parent may be missing, a process
    may be its own parent, and parents may form cycles. */
module ProcessTree {
  import opened Names
  import opened Stores

  /** Each process with the parent the system reports for it, if any. */
  type Table = map<nat, Option<nat>>

  predicate IsChild(table: Table, pid: nat, parent: nat) {
    pid in table && table[pid] == Some(parent)
  }

  /** Parent to child, from the first pid of `path` to its last. */
  predicate IsLineage(table: Table, path: seq<nat>) {
    |path| >= 1 && forall i :: 0 <= i < |path| - 1 ==> IsChild(table, path[i + 1], path[i])
  }

  ghost predicate Descends(table: Table, start: nat, pid: nat) {
    exists path :: IsLineage(table, path) && path[0] == start && path[|path| - 1] == pid
  }

  lemma {:induction false} SelfDescends(table: Table, start: nat)
    ensures Descends(table, start, start)
  {
    assert IsLineage(table, [start]);
  }

  lemma {:induction false} ChildDescends(table: Table, start: nat, parent: nat, pid: nat)
    requires Descends(table, start, parent) && IsChild(table, pid, parent)
    ensures Descends(table, start, pid)
  {
    var path :| IsLineage(table, path) && path[0] == start && path[|path| - 1] == parent;
    assert IsLineage(table, path + [pid]);
  }

  /** A set with the start and with every child of its members holds every descendant. */
  lemma {:induction false} ClosedHoldsLineage(table: Table, closed: set<nat>, path: seq<nat>)
    requires IsLineage(table, path) && path[0] in closed
    requires forall pid, parent :: IsChild(table, pid, parent) && parent in closed ==> pid in closed
    ensures path[|path| - 1] in closed
  {
    if |path| > 1 {
      ClosedHoldsLineage(table, closed, path[..|path| - 1]);
      assert IsChild(table, path[|path| - 1], path[|path| - 2]);
    }
  }

  /** What holds between two turns of the outer loop. */
  ghost predicate WorkOk(table: Table, start: nat, targets: set<nat>, stack: seq<nat>) {
    && Distinct(stack)
    && (forall i :: 0 <= i < |stack| ==> stack[i] !in targets)
    && (start in targets || stack == [start])
    && (forall i :: 0 <= i < |stack| && stack[i] != start ==> stack[i] in table && table[stack[i]].Some? && table[stack[i]].value in targets)
    && (forall pid :: pid in targets || pid in stack ==> Descends(table, start, pid))
    && (forall pid :: pid in table && table[pid].Some? && table[pid].value in targets ==> pid in targets || pid in stack)
    && (forall pid :: pid in targets ==> pid == start || pid in table)
  }

  /** The pids from which no further child can be found are exactly the descendants of `start`,
      itself included; the loops end, and no pid is ever popped twice. */
  method DetectProcesses(table: Table, start: nat) returns (targets: set<nat>, popped: seq<nat>)
    ensures forall pid :: pid in targets <==> Descends(table, start, pid)
    ensures Distinct(popped) && forall pid :: pid in popped <==> pid in targets
  {
    targets, popped := {}, [];
    var stack := [start];
    SelfDescends(table, start);
    while stack != []
      invariant WorkOk(table, start, targets, stack)
      invariant Distinct(popped) && forall pid :: pid in popped <==> pid in targets
      decreases table.Keys + {start} - targets
    {
      var current := stack[|stack| - 1];
      assert current in stack;
      assert stack[..|stack| - 1] + [current] == stack;
      stack := stack[..|stack| - 1];
      assert targets + {current} - {current} == targets;
      targets := targets + {current};
      popped := popped + [current];
      stack := PushChildren(table, start, targets, current, stack);
    }
    forall pid | Descends(table, start, pid) ensures pid in targets {
      var path :| IsLineage(table, path) && path[0] == start && path[|path| - 1] == pid;
      ClosedHoldsLineage(table, targets, path);
    }
  }

  /** `stack` is `stack0` with every child of `current` that was not a target pushed on it. */
  ghost predicate Pushed(table: Table, targets: set<nat>, current: nat, stack0: seq<nat>, stack: seq<nat>) {
    && Distinct(stack)
    && |stack0| <= |stack| && stack[..|stack0|] == stack0
    && (forall i :: |stack0| <= i < |stack| ==> IsChild(table, stack[i], current) && stack[i] !in targets)
    && (forall pid :: IsChild(table, pid, current) ==> pid in targets || pid in stack)
  }

  lemma {:induction false} PushedWorkOk(table: Table, start: nat, targets: set<nat>, current: nat, stack0: seq<nat>, stack: seq<nat>)
    requires current in targets && WorkOk(table, start, targets - {current}, stack0 + [current])
    requires Pushed(table, targets, current, stack0, stack)
    ensures WorkOk(table, start, targets, stack)
  {
    var whole := stack0 + [current];
    assert whole[|stack0|] == current && current in whole;
    assert forall i :: 0 <= i < |stack0| ==> stack0[i] == whole[i] && stack[i] == whole[i] && whole[i] in whole;
    forall pid | pid in stack ensures Descends(table, start, pid) {
      if pid !in stack0 { ChildDescends(table, start, current, pid); }
    }
    forall pid | pid in stack0 ensures pid in stack {
      var i :| 0 <= i < |stack0| && stack0[i] == pid;
      assert stack[i] == pid;
    }
  }

  /** A child of the popped pid cannot be on the stack already: its one parent is no target yet. */
  lemma {:induction false} NotOnStack(table: Table, start: nat, targets: set<nat>, current: nat, stack0: seq<nat>, pid: nat)
    requires current in targets && WorkOk(table, start, targets - {current}, stack0 + [current])
    requires IsChild(table, pid, current) && pid !in targets
    ensures pid !in stack0
  {
    var whole := stack0 + [current];
    assert whole[|stack0|] == current;
    assert forall i :: 0 <= i < |stack0| ==> stack0[i] == whole[i];
  }

  /** The inner loop: push every child of `current` that is not a target yet, in any order. */
  method PushChildren(table: Table, start: nat, targets: set<nat>, current: nat, stack0: seq<nat>) returns (stack: seq<nat>)
    requires current in targets && WorkOk(table, start, targets - {current}, stack0 + [current])
    ensures WorkOk(table, start, targets, stack)
  {
    stack := stack0;
    var todo := table.Keys;
    assert Distinct(stack0) by {
      assert forall i :: 0 <= i < |stack0| ==> stack0[i] == (stack0 + [current])[i];
    }
    while todo != {}
      invariant todo <= table.Keys
      invariant |stack0| <= |stack| && stack[..|stack0|] == stack0
      invariant Distinct(stack)
      invariant forall i :: |stack0| <= i < |stack| ==> IsChild(table, stack[i], current) && stack[i] !in targets && stack[i] !in todo
      invariant forall pid :: IsChild(table, pid, current) && pid !in todo ==> pid in targets || pid in stack
      decreases todo
    {
      var pid :| pid in todo;
      if table[pid] == Some(current) && pid !in targets {
        NotOnStack(table, start, targets, current, stack0, pid);
        assert forall i :: 0 <= i < |stack0| ==> stack[i] == stack[..|stack0|][i];
        stack := stack + [pid];
      }
      todo := todo - {pid};
    }
    PushedWorkOk(table, start, targets, current, stack0, stack);
  }
}

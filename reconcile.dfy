/**
 * The reconciliation plan both backends follow, independent of the SQL they
 * issue: walk the configured (table, operation) pairs in order and act on
 * those whose canonical trigger name is not among the existing ones; then
 * walk the existing names and act on those no configured pair produces.
 */
module Reconcile {
  import opened Config
  import opened Triggers

  /** The pairs of one table the inner create loop acts on, in operation order. */
  function OpAttempts(existing: set<string>, table: string, ops: seq<string>): seq<(string, string)>
  {
    if ops == [] then []
    else
      var op := ops[|ops| - 1];
      OpAttempts(existing, table, ops[..|ops| - 1])
      + (if TriggerName(op, table) in existing then [] else [(table, op)])
  }

  /** The (table, operation) pairs the create loops act on, in configuration order. */
  function Attempts(existing: set<string>, tables: seq<Table>): seq<(string, string)>
  {
    if tables == [] then []
    else
      var t := tables[|tables| - 1];
      Attempts(existing, tables[..|tables| - 1]) + OpAttempts(existing, t.name, t.operations)
  }

  /** The names of `visited` the drop loop acts on: those no configured pair produces. */
  function Stale(visited: seq<string>, tables: seq<Table>): seq<string>
  {
    if visited == [] then []
    else
      var n := visited[|visited| - 1];
      Stale(visited[..|visited| - 1], tables) + (if IsTableInConfig(n, tables) then [] else [n])
  }

  /** No name occurs twice. */
  predicate Distinct(names: seq<string>)
  {
    forall i, j :: 0 <= i < j < |names| ==> names[i] != names[j]
  }

  /** Some element satisfies `pred` exactly when some element of the front does, or the last does. */
  lemma ExistsSplitLast<P>(xs: seq<P>, front: seq<P>, pred: P -> bool)
    requires |xs| > 0 && front == xs[..|xs| - 1]
    ensures (exists k :: 0 <= k < |xs| && pred(xs[k]))
            <==> (exists k :: 0 <= k < |front| && pred(front[k])) || pred(xs[|xs| - 1])
  {
    if exists k :: 0 <= k < |xs| && pred(xs[k]) {
      var k :| 0 <= k < |xs| && pred(xs[k]);
      if k < |front| {
        assert front[k] == xs[k];
      }
    }
    if exists k :: 0 <= k < |front| && pred(front[k]) {
      var k :| 0 <= k < |front| && pred(front[k]);
      assert xs[k] == front[k];
    }
  }

  // ---------------------------------------------------------------------
  // One loop iteration at a time

  lemma OpAttemptsStep(existing: set<string>, table: string, ops: seq<string>, j: int)
    requires 0 <= j < |ops|
    ensures OpAttempts(existing, table, ops[..j + 1])
            == OpAttempts(existing, table, ops[..j])
               + (if TriggerName(ops[j], table) in existing then [] else [(table, ops[j])])
  {
    assert ops[..j + 1][..j] == ops[..j];
  }

  lemma AttemptsStep(existing: set<string>, tables: seq<Table>, i: int)
    requires 0 <= i < |tables|
    ensures Attempts(existing, tables[..i + 1])
            == Attempts(existing, tables[..i]) + OpAttempts(existing, tables[i].name, tables[i].operations)
  {
    assert tables[..i + 1][..i] == tables[..i];
  }

  lemma StaleStep(visited: seq<string>, n: string, tables: seq<Table>)
    ensures Stale(visited + [n], tables)
            == Stale(visited, tables) + (if IsTableInConfig(n, tables) then [] else [n])
  {
    assert (visited + [n])[..|visited|] == visited;
  }

  /** One turn of a drop loop: `name` moves from the names still to meet to the visited ones. */
  lemma VisitStep(existing: map<string, string>, remaining: set<string>, visited: seq<string>, name: string)
    requires name in remaining
    requires forall n :: n in existing <==> n in remaining || n in visited
    requires forall n :: n in remaining ==> n !in visited
    requires Distinct(visited)
    ensures forall n :: n in existing <==> n in remaining - {name} || n in visited + [name]
    ensures forall n :: n in remaining - {name} ==> n !in visited + [name]
    ensures Distinct(visited + [name])
  {
  }

  lemma {:induction false} OpAttemptsPrefix(existing: set<string>, table: string, ops: seq<string>, j: int)
    requires 0 <= j <= |ops|
    ensures OpAttempts(existing, table, ops[..j]) <= OpAttempts(existing, table, ops)
    decreases |ops|
  {
    if j < |ops| {
      var n := |ops| - 1;
      assert ops[..n][..j] == ops[..j];
      OpAttemptsPrefix(existing, table, ops[..n], j);
    } else {
      assert ops[..j] == ops;
    }
  }

  lemma {:induction false} AttemptsPrefix(existing: set<string>, tables: seq<Table>, i: int)
    requires 0 <= i <= |tables|
    ensures Attempts(existing, tables[..i]) <= Attempts(existing, tables)
    decreases |tables|
  {
    if i < |tables| {
      var n := |tables| - 1;
      assert tables[..n][..i] == tables[..i];
      AttemptsPrefix(existing, tables[..n], i);
    } else {
      assert tables[..i] == tables;
    }
  }

  /** What the create loops have done after table i's first j operations is a prefix of the whole. */
  lemma AttemptsSoFar(existing: set<string>, tables: seq<Table>, i: int, j: int)
    requires 0 <= i < |tables| && 0 <= j <= |tables[i].operations|
    ensures Attempts(existing, tables[..i]) + OpAttempts(existing, tables[i].name, tables[i].operations[..j])
            <= Attempts(existing, tables)
  {
    OpAttemptsPrefix(existing, tables[i].name, tables[i].operations, j);
    AttemptsStep(existing, tables, i);
    AttemptsPrefix(existing, tables, i + 1);
  }

  // ---------------------------------------------------------------------
  // What the plan does

  /** Some configured table named `t` lists the operation `op`. */
  predicate Configured(tables: seq<Table>, t: string, op: string)
  {
    exists i :: 0 <= i < |tables| && tables[i].name == t && op in tables[i].operations
  }

  /**
   * A pair is acted on exactly when some configured table of that name lists
   * that operation and the pair's canonical name is not an existing one.
   */
  lemma {:induction false} AttemptedExactlyMissing(existing: set<string>, tables: seq<Table>, t: string, op: string)
    ensures (t, op) in Attempts(existing, tables) <==> Configured(tables, t, op) && TriggerName(op, t) !in existing
    decreases |tables|
  {
    if tables != [] {
      var n := |tables| - 1;
      var front := tables[..n];
      var last := tables[n];
      AttemptedExactlyMissing(existing, front, t, op);
      OpAttemptedExactlyMissing(existing, last.name, last.operations, t, op);
      assert Attempts(existing, tables) == Attempts(existing, front) + OpAttempts(existing, last.name, last.operations);
      ExistsSplitLast(tables, front, (tb: Table) => tb.name == t && op in tb.operations);
    }
  }

  lemma {:induction false} OpAttemptedExactlyMissing(existing: set<string>, table: string, ops: seq<string>, t: string, op: string)
    ensures (t, op) in OpAttempts(existing, table, ops)
            <==> t == table && op in ops && TriggerName(op, t) !in existing
    decreases |ops|
  {
    if ops != [] {
      var n := |ops| - 1;
      OpAttemptedExactlyMissing(existing, table, ops[..n], t, op);
      assert ops == ops[..n] + [ops[n]];
    }
  }

  /** When every configured name exists already, no pair is acted on. */
  lemma NothingMissing(existing: set<string>, tables: seq<Table>)
    requires ConfiguredNames(tables) <= existing
    ensures Attempts(existing, tables) == []
  {
    forall i, op | 0 <= i < |tables| && op in tables[i].operations
      ensures TriggerName(op, tables[i].name) in existing
    {
      var j :| 0 <= j < |tables[i].operations| && tables[i].operations[j] == op;
      assert TriggerName(tables[i].operations[j], tables[i].name) in ConfiguredNames(tables);
    }
    NoAttempts(existing, tables);
  }

  lemma {:induction false} NoAttempts(existing: set<string>, tables: seq<Table>)
    requires forall i, op :: 0 <= i < |tables| && op in tables[i].operations
               ==> TriggerName(op, tables[i].name) in existing
    ensures Attempts(existing, tables) == []
    decreases |tables|
  {
    if tables != [] {
      var n := |tables| - 1;
      var front := tables[..n];
      var last := tables[n];
      assert forall i :: 0 <= i < n ==> front[i] == tables[i];
      NoAttempts(existing, front);
      NoOpAttempts(existing, last.name, last.operations);
    }
  }

  lemma {:induction false} NoOpAttempts(existing: set<string>, table: string, ops: seq<string>)
    requires forall op :: op in ops ==> TriggerName(op, table) in existing
    ensures OpAttempts(existing, table, ops) == []
    decreases |ops|
  {
    if ops != [] {
      var front := ops[..|ops| - 1];
      assert forall op :: op in front ==> op in ops;
      NoOpAttempts(existing, table, front);
    }
  }

  /** A name is acted on by the drop loop exactly when it was visited and is not configured. */
  lemma {:induction false} StaleExactly(visited: seq<string>, tables: seq<Table>, n: string)
    ensures n in Stale(visited, tables) <==> n in visited && !IsTableInConfig(n, tables)
    decreases |visited|
  {
    if visited != [] {
      var k := |visited| - 1;
      StaleExactly(visited[..k], tables, n);
      assert visited == visited[..k] + [visited[k]];
    }
  }

  /** The drop loop acts on each name at most once, since map keys are distinct. */
  lemma {:induction false} StaleDistinct(visited: seq<string>, tables: seq<Table>)
    requires Distinct(visited)
    ensures Distinct(Stale(visited, tables))
    decreases |visited|
  {
    if visited != [] {
      var k := |visited| - 1;
      var m := visited[k];
      StaleDistinct(visited[..k], tables);
      StaleExactly(visited[..k], tables, m);
      assert m !in visited[..k];
    }
  }

  /** When every visited name is configured, the drop loop acts on none. */
  lemma NothingStale(visited: seq<string>, tables: seq<Table>)
    requires forall n :: n in visited ==> IsTableInConfig(n, tables)
    ensures Stale(visited, tables) == []
  {
    if Stale(visited, tables) != [] {
      StaleExactly(visited, tables, Stale(visited, tables)[0]);
    }
  }
}

/**
 * The Postgres reconciler: `initPostgresTrigger`, `createPostgresTrigger`
 * and `dropPostgresTrigger`.
 *
 * As for MySQL, the database is a catalog (the listed triggers with their
 * tables, and the column list of each table of schema `public`) plus a
 * predicate telling which statements it rejects, and a pass is the log of
 * statements issued up to and including the first failing one.
 */
module Postgres {
  import opened Wrappers
  import opened Text
  import opened Config
  import opened Triggers
  import opened RowFormat
  import opened Effects
  import opened Reconcile

  /** The statements the reconciler sends, with the values each template interpolates. */
  datatype Statement =
    | CreateFunction(baseUrl: string, port: string)
    | ListTriggers
    | ListColumns(table: string)
    | CreateTrigger(name: string, event: string, table: string, rowData: string)
    | DropTrigger(name: string, on: string)

  /** What the database answers: listed (table, trigger name) rows, and columns per table. */
  datatype Catalog = Catalog(triggerRows: seq<(string, string)>, columns: map<string, seq<string>>)

  /** The column query's answer for a table of schema `public`. */
  function Columns(db: Catalog, table: string): seq<string>
  {
    if table in db.columns then db.columns[table] else []
  }

  /** The existing-triggers map after the row loop: trigger name to table, a later row winning. */
  function ExistingMap(rows: seq<(string, string)>): map<string, string>
  {
    if rows == [] then map[]
    else
      var row := rows[|rows| - 1];
      ExistingMap(rows[..|rows| - 1])[row.1 := row.0]
  }

  /** The trigger function every trigger calls, as the pass installs it first. */
  function FunctionStatement(servers: ServerSettings): Statement
  {
    CreateFunction(servers.httpBaseUrl, IntToString(servers.httpPort))
  }

  /** The CREATE OR REPLACE TRIGGER statement: every operation reads NEW. */
  function CreateStatement(table: string, op: string, columns: seq<string>): Statement
  {
    CreateTrigger("realtimer_trigger_" + Lower(op) + "_" + table, op, table,
                  ColumnConcatenation("COALESCE", "NEW", columns))
  }

  /** What one call of createPostgresTrigger issues when nothing fails. */
  function CreateStatements(db: Catalog, table: string, op: string): seq<Statement>
  {
    [ListColumns(table), CreateStatement(table, op, Columns(db, table))]
  }

  /** The statements of the create loops, one call per attempted pair. */
  function CreatePhase(db: Catalog, pairs: seq<(string, string)>): seq<Statement>
  {
    if pairs == [] then []
    else
      var p := pairs[|pairs| - 1];
      CreatePhase(db, pairs[..|pairs| - 1]) + CreateStatements(db, p.0, p.1)
  }

  /** The statements of the drop loop; the database name stands where the table belongs. */
  function DropPhase(dbName: string, names: seq<string>): seq<Statement>
  {
    seq(|names|, i requires 0 <= i < |names| => DropTrigger(names[i], dbName))
  }

  /**
   * The whole pass when nothing fails, given the order `visited` in which the
   * drop loop meets the existing names.
   */
  function Plan(cfg: DBConfig, db: Catalog, visited: seq<string>): seq<Statement>
  {
    [FunctionStatement(cfg.servers), ListTriggers]
    + CreatePhase(db, Attempts(ExistingMap(db.triggerRows).Keys, cfg.tables))
    + DropPhase(cfg.database.name, Stale(visited, cfg.tables))
  }

  // ---------------------------------------------------------------------
  // The reconciler

  /** The row loop: map each listed trigger name to its table. */
  method RecordExisting(rows: seq<(string, string)>) returns (existing: map<string, string>)
    ensures existing == ExistingMap(rows)
  {
    existing := map[];
    for i := 0 to |rows|
      invariant existing == ExistingMap(rows[..i])
    {
      assert rows[..i + 1][..i] == rows[..i];
      var (tableName, triggerName) := rows[i];
      existing := existing[triggerName := tableName];
    }
    assert rows[..|rows|] == rows;
  }

  /** createPostgresTrigger: read the columns, then create or replace the trigger. */
  method CreatePostgresTrigger(table: string, op: string, db: Catalog, fails: Statement -> bool)
    returns (issued: seq<Statement>, failed: bool)
    ensures Run(CreateStatements(db, table, op), fails) == Outcome(issued, failed)
  {
    var query := ListColumns(table);
    issued := [query];
    if fails(query) {
      return issued, true;
    }
    var columns := Columns(db, table);
    var rowData := BuildConcatenation("COALESCE", "NEW", columns);
    var stmt := CreateTrigger("realtimer_trigger_" + Lower(op) + "_" + table, op, table, rowData);
    assert CreateStatements(db, table, op) == [query, stmt];
    RunCons([query, stmt], fails);
    assert [query, stmt][1..] == [stmt];
    issued := issued + [stmt];
    failed := fails(stmt);
  }

  /** The inner create loop over one table's operations. */
  method CreateForTable(db: Catalog, existing: map<string, string>, table: Table, fails: Statement -> bool)
    returns (issued: seq<Statement>, failed: bool)
    ensures Run(CreatePhase(db, OpAttempts(existing.Keys, table.name, table.operations)), fails)
            == Outcome(issued, failed)
  {
    var ops := table.operations;
    issued := [];
    for j := 0 to |ops|
      invariant issued == CreatePhase(db, OpAttempts(existing.Keys, table.name, ops[..j]))
      invariant NoneFail(issued, fails)
    {
      var stop;
      issued, stop := CreateForOperation(db, existing, table.name, ops, j, issued, fails);
      if stop {
        return issued, true;
      }
    }
    assert ops[..|ops|] == ops;
    RunAll(issued, fails);
    return issued, false;
  }

  /**
   * One turn of the inner create loop: create the pair unless its canonical
   * name exists; a failing create ends the loop.
   */
  method CreateForOperation(db: Catalog, existing: map<string, string>, table: string, ops: seq<string>, j: nat,
                            issued: seq<Statement>, fails: Statement -> bool)
    returns (after: seq<Statement>, stop: bool)
    requires j < |ops|
    requires issued == CreatePhase(db, OpAttempts(existing.Keys, table, ops[..j])) && NoneFail(issued, fails)
    ensures stop ==> Run(CreatePhase(db, OpAttempts(existing.Keys, table, ops)), fails) == Outcome(after, true)
    ensures !stop ==> after == CreatePhase(db, OpAttempts(existing.Keys, table, ops[..j + 1]))
                      && NoneFail(after, fails)
  {
    if TriggerName(ops[j], table) in existing {
      OpAttemptsStep(existing.Keys, table, ops, j);
      assert OpAttempts(existing.Keys, table, ops[..j + 1]) == OpAttempts(existing.Keys, table, ops[..j]);
      return issued, false;
    }
    var created, createFailed := CreatePostgresTrigger(table, ops[j], db, fails);
    if createFailed {
      CreateStopsAt(db, existing.Keys, table, ops, j, issued, fails);
      return issued + created, true;
    }
    CreateContinues(db, existing.Keys, table, ops, j, issued, fails);
    return issued + created, false;
  }

  /** The outer create loop over the configured tables. */
  method CreateMissing(cfg: DBConfig, db: Catalog, existing: map<string, string>, fails: Statement -> bool)
    returns (issued: seq<Statement>, failed: bool)
    ensures Run(CreatePhase(db, Attempts(existing.Keys, cfg.tables)), fails) == Outcome(issued, failed)
  {
    ghost var keys := existing.Keys;
    var tables := cfg.tables;
    issued := [];
    for i := 0 to |tables|
      invariant issued == CreatePhase(db, Attempts(keys, tables[..i]))
      invariant NoneFail(issued, fails)
    {
      ghost var done := Attempts(keys, tables[..i]);
      ghost var step := OpAttempts(keys, tables[i].name, tables[i].operations);
      AttemptsStep(keys, tables, i);
      CreatePhaseAppend(db, done, step);
      var created, tableFailed := CreateForTable(db, existing, tables[i], fails);
      if tableFailed {
        AttemptsPrefix(keys, tables, i + 1);
        CreatePhasePrefix(db, done + step, Attempts(keys, tables));
        RunStopsInside(CreatePhase(db, Attempts(keys, tables)), issued, CreatePhase(db, step), fails);
        return issued + created, true;
      }
      RunIssues(CreatePhase(db, step), fails);
      issued := issued + created;
    }
    assert tables[..|tables|] == tables;
    RunAll(issued, fails);
    return issued, false;
  }

  /**
   * The drop loop: meet every existing name once, in an order the model does
   * not fix (Go map iteration), and drop it if no configured pair produces it.
   */
  method DropStale(cfg: DBConfig, existing: map<string, string>, fails: Statement -> bool)
    returns (issued: seq<Statement>, failed: bool, visited: seq<string>)
    ensures Run(DropPhase(cfg.database.name, Stale(visited, cfg.tables)), fails) == Outcome(issued, failed)
    ensures Distinct(visited)
    ensures forall n :: n in visited ==> n in existing
    ensures !failed ==> forall n :: n in existing ==> n in visited
  {
    var tables := cfg.tables;
    var remaining := existing.Keys;
    issued, visited := [], [];
    while remaining != {}
      invariant issued == DropPhase(cfg.database.name, Stale(visited, tables))
      invariant NoneFail(issued, fails)
      invariant forall n :: n in existing <==> n in remaining || n in visited
      invariant forall n :: n in remaining ==> n !in visited
      invariant Distinct(visited)
      decreases |remaining|
    {
      var name :| name in remaining;
      DropStep(cfg.database.name, visited, name, tables);
      VisitStep(existing, remaining, visited, name);
      remaining := remaining - {name};
      visited := visited + [name];
      if !IsTableInConfig(name, tables) {
        var drop := DropTrigger(name, cfg.database.name);
        issued := issued + [drop];
        if fails(drop) {
          RunStopsAt(issued, issued, fails);
          return issued, true, visited;
        }
      }
    }
    RunAll(issued, fails);
    return issued, false, visited;
  }

  /**
   * initPostgresTrigger: install the trigger function, list the existing
   * triggers, create the missing ones, then drop the unconfigured ones,
   * returning at the first failing statement. `visited` is the order in
   * which the drop loop met the existing names.
   */
  method InitPostgresTrigger(cfg: DBConfig, db: Catalog, fails: Statement -> bool)
    returns (err: Option<Statement>, log: seq<Statement>, visited: seq<string>)
    ensures Run(Plan(cfg, db, visited), fails) == Outcome(log, err.Some?)
    ensures err.Some? ==> |log| > 0 && err.value == log[|log| - 1]
    ensures Distinct(visited)
    ensures forall n :: n in visited ==> n in ExistingMap(db.triggerRows)
    ensures err.None? ==> forall n :: n in ExistingMap(db.triggerRows) ==> n in visited
  {
    visited := [];
    var install := FunctionStatement(cfg.servers);
    if fails(install) {
      PlanOpening(cfg, db, visited, fails);
      return Some(install), [install], visited;
    }
    if fails(ListTriggers) {
      PlanOpening(cfg, db, visited, fails);
      return Some(ListTriggers), [install, ListTriggers], visited;
    }
    var existing := RecordExisting(db.triggerRows);
    var rest, failed;
    rest, failed, visited := CreateThenDrop(cfg, db, existing, fails);
    PlanStart(cfg, db, visited, fails);
    log := [install, ListTriggers] + rest;
    if failed {
      return Some(log[|log| - 1]), log, visited;
    }
    return None, log, visited;
  }

  /** The create loops, then (if they all succeed) the drop loop. */
  method CreateThenDrop(cfg: DBConfig, db: Catalog, existing: map<string, string>, fails: Statement -> bool)
    returns (issued: seq<Statement>, failed: bool, visited: seq<string>)
    ensures Run(CreatePhase(db, Attempts(existing.Keys, cfg.tables))
                + DropPhase(cfg.database.name, Stale(visited, cfg.tables)), fails)
            == Outcome(issued, failed)
    ensures failed ==> |issued| > 0
    ensures Distinct(visited)
    ensures forall n :: n in visited ==> n in existing
    ensures !failed ==> forall n :: n in existing ==> n in visited
  {
    ghost var creates := CreatePhase(db, Attempts(existing.Keys, cfg.tables));
    var created, createFailed := CreateMissing(cfg, db, existing, fails);
    RunIssues(creates, fails);
    if createFailed {
      visited := [];
      RunAppend(creates, DropPhase(cfg.database.name, Stale(visited, cfg.tables)), fails);
      return created, true, visited;
    }
    var dropped, dropFailed;
    dropped, dropFailed, visited := DropStale(cfg, existing, fails);
    RunIssues(DropPhase(cfg.database.name, Stale(visited, cfg.tables)), fails);
    RunAppend(creates, DropPhase(cfg.database.name, Stale(visited, cfg.tables)), fails);
    return created + dropped, dropFailed, visited;
  }

  /** Either opening statement failing ends the pass there. */
  lemma PlanOpening(cfg: DBConfig, db: Catalog, visited: seq<string>, fails: Statement -> bool)
    ensures fails(FunctionStatement(cfg.servers))
            ==> Run(Plan(cfg, db, visited), fails) == Outcome([FunctionStatement(cfg.servers)], true)
    ensures !fails(FunctionStatement(cfg.servers)) && fails(ListTriggers)
            ==> Run(Plan(cfg, db, visited), fails) == Outcome([FunctionStatement(cfg.servers), ListTriggers], true)
  {
    var plan := Plan(cfg, db, visited);
    if !fails(FunctionStatement(cfg.servers)) && fails(ListTriggers) {
      RunStopsAt(plan, [FunctionStatement(cfg.servers), ListTriggers], fails);
    }
  }

  /** Both opening statements succeed and the rest of the pass runs on its own. */
  lemma PlanStart(cfg: DBConfig, db: Catalog, visited: seq<string>, fails: Statement -> bool)
    requires !fails(FunctionStatement(cfg.servers)) && !fails(ListTriggers)
    ensures var rest := CreatePhase(db, Attempts(ExistingMap(db.triggerRows).Keys, cfg.tables))
                        + DropPhase(cfg.database.name, Stale(visited, cfg.tables));
            Run(Plan(cfg, db, visited), fails)
            == Outcome([FunctionStatement(cfg.servers), ListTriggers] + Run(rest, fails).issued, Run(rest, fails).failed)
  {
    var opening := [FunctionStatement(cfg.servers), ListTriggers];
    var rest := CreatePhase(db, Attempts(ExistingMap(db.triggerRows).Keys, cfg.tables))
                + DropPhase(cfg.database.name, Stale(visited, cfg.tables));
    assert Plan(cfg, db, visited) == opening + rest;
    RunAfter(opening, rest, fails);
  }

  /** A failing create inside one table's loop ends the whole inner loop there. */
  lemma CreateStopsAt(db: Catalog, keys: set<string>, table: string, ops: seq<string>, j: nat,
                      issued: seq<Statement>, fails: Statement -> bool)
    requires j < |ops| && TriggerName(ops[j], table) !in keys
    requires issued == CreatePhase(db, OpAttempts(keys, table, ops[..j])) && NoneFail(issued, fails)
    requires Run(CreateStatements(db, table, ops[j]), fails).failed
    ensures Run(CreatePhase(db, OpAttempts(keys, table, ops)), fails)
            == Outcome(issued + Run(CreateStatements(db, table, ops[j]), fails).issued, true)
  {
    var done := OpAttempts(keys, table, ops[..j]);
    OpAttemptsStep(keys, table, ops, j);
    CreatePhaseStep(db, done, (table, ops[j]));
    OpAttemptsPrefix(keys, table, ops, j + 1);
    CreatePhasePrefix(db, done + [(table, ops[j])], OpAttempts(keys, table, ops));
    RunStopsInside(CreatePhase(db, OpAttempts(keys, table, ops)), issued, CreateStatements(db, table, ops[j]), fails);
  }

  /** A create that succeeds extends the inner loop's prefix by its statements. */
  lemma CreateContinues(db: Catalog, keys: set<string>, table: string, ops: seq<string>, j: nat,
                        issued: seq<Statement>, fails: Statement -> bool)
    requires j < |ops| && TriggerName(ops[j], table) !in keys
    requires issued == CreatePhase(db, OpAttempts(keys, table, ops[..j])) && NoneFail(issued, fails)
    requires !Run(CreateStatements(db, table, ops[j]), fails).failed
    ensures issued + Run(CreateStatements(db, table, ops[j]), fails).issued
            == CreatePhase(db, OpAttempts(keys, table, ops[..j + 1]))
    ensures NoneFail(issued + Run(CreateStatements(db, table, ops[j]), fails).issued, fails)
  {
    OpAttemptsStep(keys, table, ops, j);
    CreatePhaseStep(db, OpAttempts(keys, table, ops[..j]), (table, ops[j]));
    RunIssues(CreateStatements(db, table, ops[j]), fails);
  }

  lemma CreatePhaseStep(db: Catalog, done: seq<(string, string)>, p: (string, string))
    ensures CreatePhase(db, done + [p]) == CreatePhase(db, done) + CreateStatements(db, p.0, p.1)
  {
    assert (done + [p])[..|done|] == done;
  }

  /** The drop statements grow by one exactly when the newly met name is stale. */
  lemma DropStep(dbName: string, visited: seq<string>, name: string, tables: seq<Table>)
    ensures DropPhase(dbName, Stale(visited + [name], tables))
            == DropPhase(dbName, Stale(visited, tables)) + (if IsTableInConfig(name, tables) then [] else [DropTrigger(name, dbName)])
  {
    StaleStep(visited, name, tables);
    if IsTableInConfig(name, tables) {
      assert Stale(visited + [name], tables) == Stale(visited, tables);
    } else {
      DropPhaseStep(dbName, Stale(visited, tables), name);
    }
  }

  lemma DropPhaseStep(dbName: string, names: seq<string>, n: string)
    ensures DropPhase(dbName, names + [n]) == DropPhase(dbName, names) + [DropTrigger(n, dbName)]
  {
  }

  lemma {:induction false} CreatePhaseAppend(db: Catalog, a: seq<(string, string)>, b: seq<(string, string)>)
    ensures CreatePhase(db, a + b) == CreatePhase(db, a) + CreatePhase(db, b)
    decreases |b|
  {
    if b == [] {
      assert a + b == a;
    } else {
      var n := |b| - 1;
      assert (a + b)[..|a| + n] == a + b[..n];
      CreatePhaseAppend(db, a, b[..n]);
    }
  }

  lemma CreatePhasePrefix(db: Catalog, a: seq<(string, string)>, b: seq<(string, string)>)
    requires a <= b
    ensures CreatePhase(db, a) <= CreatePhase(db, b)
  {
    assert b == a + b[|a|..];
    CreatePhaseAppend(db, a, b[|a|..]);
  }

  // ---------------------------------------------------------------------
  // Properties of the pass

  /**
   * The row loop keys each listed trigger by its name; when a name is listed
   * more than once, the table of its last row is kept.
   */
  lemma ExistingRecords(rows: seq<(string, string)>, n: string)
    ensures n in ExistingMap(rows) <==> exists k :: 0 <= k < |rows| && rows[k].1 == n
    ensures n in ExistingMap(rows) ==>
              exists k :: 0 <= k < |rows| && rows[k].1 == n && ExistingMap(rows)[n] == rows[k].0
                          && forall k' :: k < k' < |rows| ==> rows[k'].1 != n
  {
    ExistingKeys(rows, n);
    ExistingLastRow(rows, n);
  }

  lemma {:induction false} ExistingKeys(rows: seq<(string, string)>, n: string)
    ensures n in ExistingMap(rows) <==> exists k :: 0 <= k < |rows| && rows[k].1 == n
    decreases |rows|
  {
    if rows != [] {
      var last := |rows| - 1;
      var front := rows[..last];
      ExistingKeys(front, n);
      assert forall k :: 0 <= k < last ==> front[k] == rows[k];
    }
  }

  lemma {:induction false} ExistingLastRow(rows: seq<(string, string)>, n: string)
    ensures n in ExistingMap(rows) ==>
              exists k :: 0 <= k < |rows| && rows[k].1 == n && ExistingMap(rows)[n] == rows[k].0
                          && forall k' :: k < k' < |rows| ==> rows[k'].1 != n
    decreases |rows|
  {
    if rows != [] {
      var last := |rows| - 1;
      var front := rows[..last];
      ExistingLastRow(front, n);
      if rows[last].1 != n && n in ExistingMap(front) {
        var k :| 0 <= k < last && front[k].1 == n && ExistingMap(front)[n] == front[k].0
                 && forall k' :: k < k' < last ==> front[k'].1 != n;
        assert rows[k] == front[k];
        assert forall k' :: k < k' < last ==> rows[k'] == front[k'];
        assert rows[k].1 == n && ExistingMap(rows)[n] == rows[k].0;
      }
    }
  }

  /** The created trigger is named by the reconciliation key of the same pair, whatever the operation. */
  lemma CreatedNameIsKey(table: string, op: string, columns: seq<string>)
    ensures CreateStatement(table, op, columns).name == TriggerName(op, table)
    ensures CreateStatement(table, op, columns).event == op
    ensures CreateStatement(table, op, columns).table == table
  {
  }

  /**
   * Every operation's trigger argument is built from NEW, DELETE included.
   * The text is the COALESCE argument list, handed to the trigger function as
   * the third string constant `'%s'` and never evaluated by a CONCAT; with at
   * least one column it opens with a quote of its own, so the quote that
   * encloses it is followed directly by another one.
   */
  lemma CreatedBodyReadsNew(table: string, op: string, columns: seq<string>)
    ensures var args := ConcatArgs("COALESCE", "NEW", columns);
            CreateStatement(table, op, columns).rowData == Join(ArgTexts(args), ", ")
            && (forall a :: a in args && a.ColumnOrNull? ==> a.rowVar == "NEW")
    ensures |columns| > 0 ==> |CreateStatement(table, op, columns).rowData| > 0
                              && CreateStatement(table, op, columns).rowData[0] == '\''
  {
    ConcatenationDenotes("COALESCE", "NEW", columns);
    ArgsReadRow("COALESCE", "NEW", columns);
    if |columns| > 0 {
      ConcatenationOpensWithQuote("COALESCE", "NEW", columns);
    }
  }

  lemma {:induction false} ArgsReadRow(nullFn: string, rowVar: string, columns: seq<string>)
    ensures forall a :: a in ConcatArgs(nullFn, rowVar, columns) && a.ColumnOrNull? ==> a.rowVar == rowVar
    decreases |columns|
  {
    var args := ConcatArgs(nullFn, rowVar, columns);
    if |columns| > 1 {
      ArgsReadRow(nullFn, rowVar, columns[1..]);
      var rest := ConcatArgs(nullFn, rowVar, columns[1..]);
      assert args == [Literal(columns[0] + ": "), ColumnOrNull(nullFn, rowVar, columns[0]), Literal(", ")] + rest;
    } else if |columns| == 1 {
      assert args == [Literal(columns[0] + ": "), ColumnOrNull(nullFn, rowVar, columns[0])];
    }
  }

  /** The calls a statement of the create phase can come from. */
  predicate FromCall(db: Catalog, p: (string, string), s: Statement)
  {
    s in CreateStatements(db, p.0, p.1)
  }

  lemma {:induction false} CreatePhaseMembers(db: Catalog, pairs: seq<(string, string)>, s: Statement)
    ensures s in CreatePhase(db, pairs) <==> exists k :: 0 <= k < |pairs| && FromCall(db, pairs[k], s)
    decreases |pairs|
  {
    if pairs != [] {
      var n := |pairs| - 1;
      var front := pairs[..n];
      CreatePhaseMembers(db, front, s);
      assert CreatePhase(db, pairs) == CreatePhase(db, front) + CreateStatements(db, pairs[n].0, pairs[n].1);
      ExistsSplitLast(pairs, front, p => FromCall(db, p, s));
    }
  }

  /** A trigger is created for a configured pair exactly when its key is missing. */
  lemma CreatesExactlyMissing(cfg: DBConfig, db: Catalog, t: string, op: string)
    ensures var creates := CreatePhase(db, Attempts(ExistingMap(db.triggerRows).Keys, cfg.tables));
            (exists s :: s in creates && s.CreateTrigger? && s.table == t && s.event == op)
            <==> Configured(cfg.tables, t, op) && TriggerName(op, t) !in ExistingMap(db.triggerRows)
  {
    var keys := ExistingMap(db.triggerRows).Keys;
    var pairs := Attempts(keys, cfg.tables);
    var creates := CreatePhase(db, pairs);
    AttemptedExactlyMissing(keys, cfg.tables, t, op);
    if exists s :: s in creates && s.CreateTrigger? && s.table == t && s.event == op {
      var s :| s in creates && s.CreateTrigger? && s.table == t && s.event == op;
      CreatePhaseMembers(db, pairs, s);
      var k :| 0 <= k < |pairs| && FromCall(db, pairs[k], s);
      assert pairs[k] == (t, op);
    }
    if (t, op) in pairs {
      var s := CreateStatement(t, op, Columns(db, t));
      var k :| 0 <= k < |pairs| && pairs[k] == (t, op);
      assert FromCall(db, pairs[k], s);
      CreatePhaseMembers(db, pairs, s);
    }
  }

  /**
   * On a pass that completes, an existing name is dropped exactly when no
   * configured pair produces it, never twice, and always with the database
   * name in the table position.
   */
  lemma DropsExactlyStale(cfg: DBConfig, existing: map<string, string>, visited: seq<string>, n: string, on: string)
    requires Distinct(visited)
    requires forall m :: m in visited <==> m in existing
    ensures DropTrigger(n, on) in DropPhase(cfg.database.name, Stale(visited, cfg.tables))
            <==> on == cfg.database.name && n in existing && !IsTableInConfig(n, cfg.tables)
    ensures forall i, j :: 0 <= i < j < |DropPhase(cfg.database.name, Stale(visited, cfg.tables))| ==>
              DropPhase(cfg.database.name, Stale(visited, cfg.tables))[i]
              != DropPhase(cfg.database.name, Stale(visited, cfg.tables))[j]
  {
    var stale := Stale(visited, cfg.tables);
    StaleExactly(visited, cfg.tables, n);
    StaleDistinct(visited, cfg.tables);
    var drops := DropPhase(cfg.database.name, stale);
    if DropTrigger(n, on) in drops {
      var k :| 0 <= k < |drops| && drops[k] == DropTrigger(n, on);
      assert stale[k] == n;
    }
    if n in stale {
      var k :| 0 <= k < |stale| && stale[k] == n;
      assert drops[k] == DropTrigger(n, cfg.database.name);
    }
    forall i, j | 0 <= i < j < |drops| ensures drops[i] != drops[j] {
      assert stale[i] != stale[j];
    }
  }

  /**
   * Idempotence: when the listed names are exactly the canonical names of the
   * configured pairs, the pass only installs the function and lists triggers.
   */
  lemma Idempotent(cfg: DBConfig, db: Catalog, visited: seq<string>)
    requires ExistingMap(db.triggerRows).Keys == ConfiguredNames(cfg.tables)
    requires forall n :: n in visited ==> n in ExistingMap(db.triggerRows)
    ensures Plan(cfg, db, visited) == [FunctionStatement(cfg.servers), ListTriggers]
  {
    NothingMissing(ExistingMap(db.triggerRows).Keys, cfg.tables);
    forall n | n in visited ensures IsTableInConfig(n, cfg.tables) {
      assert n in ConfiguredNames(cfg.tables);
    }
    NothingStale(visited, cfg.tables);
  }

  lemma {:induction false} NoDropInCreates(db: Catalog, pairs: seq<(string, string)>)
    ensures forall k :: 0 <= k < |CreatePhase(db, pairs)| ==> !CreatePhase(db, pairs)[k].DropTrigger?
    decreases |pairs|
  {
    if pairs != [] {
      NoDropInCreates(db, pairs[..|pairs| - 1]);
    }
  }

  /** If the pass issued any DROP, it issued everything before the drop loop first. */
  lemma DropsAfterCreates(cfg: DBConfig, db: Catalog, visited: seq<string>, fails: Statement -> bool)
    ensures var issued := Run(Plan(cfg, db, visited), fails).issued;
            (exists k :: 0 <= k < |issued| && issued[k].DropTrigger?)
            ==> [FunctionStatement(cfg.servers), ListTriggers]
                + CreatePhase(db, Attempts(ExistingMap(db.triggerRows).Keys, cfg.tables)) <= issued
  {
    var prefix := [FunctionStatement(cfg.servers), ListTriggers]
                  + CreatePhase(db, Attempts(ExistingMap(db.triggerRows).Keys, cfg.tables));
    var drops := DropPhase(cfg.database.name, Stale(visited, cfg.tables));
    assert Plan(cfg, db, visited) == prefix + drops;
    RunAppend(prefix, drops, fails);
    RunIssues(prefix, fails);
    NoDropInCreates(db, Attempts(ExistingMap(db.triggerRows).Keys, cfg.tables));
    assert forall k :: 0 <= k < |prefix| ==> !prefix[k].DropTrigger?;
  }
}

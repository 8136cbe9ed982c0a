/**
 * The MySQL reconciler: `initMySqlTriggers`, `createMySqlTriggerForTable`
 * and `dropMySqlTrigger`.
 *
 * The database is replaced by a catalog (the trigger names the listing query
 * returns and the column list of each table) and a predicate telling which
 * statements it rejects; the effect of a pass is the log of statements
 * issued, up to and including the first one that fails.
 */
module MySql {
  import opened Wrappers
  import opened Text
  import opened Config
  import opened Triggers
  import opened RowFormat
  import opened Effects
  import opened Reconcile

  /** The statements the reconciler sends, with the values each template interpolates. */
  datatype Statement =
    | ListTriggers
    | ListColumns(schema: string, table: string)
    | CreateTrigger(name: string, event: string, schema: string, table: string,
                    rowData: string, url: string, terminated: bool)
    | DropTrigger(schema: string, name: string)

  /** What the database answers: trigger names matching the prefix, and columns per table. */
  datatype Catalog = Catalog(triggerRows: seq<string>, columns: map<string, seq<string>>)

  /** The column query's answer for a table of the configured schema. */
  function Columns(db: Catalog, table: string): seq<string>
  {
    if table in db.columns then db.columns[table] else []
  }

  /** The table a listed name records: parts[3:] rejoined, when there are more than 3 parts. */
  function RecordedTable(name: string): Option<string>
  {
    var parts := Split(name, "_");
    if |parts| > 3 then Some(Join(parts[3..], "_")) else None
  }

  /** The existing-triggers map after the row loop has seen `rows`. */
  function ExistingMap(rows: seq<string>): map<string, string>
  {
    if rows == [] then map[]
    else
      var m := ExistingMap(rows[..|rows| - 1]);
      var n := rows[|rows| - 1];
      match RecordedTable(n)
      case Some(t) => m[n := t]
      case None => m
  }

  /** The operations that have a trigger template; any other string creates nothing. */
  const Events: set<string> := {"INSERT", "UPDATE", "DELETE"}

  /** The row image a trigger body reads: OLD for DELETE, NEW otherwise. */
  function RowVariable(op: string): string
  {
    if op == "DELETE" then "OLD" else "NEW"
  }

  /** The trigger name each template writes, with its operation word hard-coded. */
  function CreatedName(op: string, table: string): string
  {
    if op == "INSERT" then "realtimer_trigger_insert_" + table
    else if op == "UPDATE" then "realtimer_trigger_update_" + table
    else "realtimer_trigger_delete_" + table
  }

  /** The ingestion URL a trigger posts to. */
  function CallbackUrl(servers: ServerSettings, table: string, event: string): string
  {
    servers.httpBaseUrl + ":" + IntToString(servers.httpPort) + "/api/db?table=" + table + "&event=" + event
  }

  /** The CREATE TRIGGER statement for a known operation. */
  function CreateStatement(cfg: DBConfig, table: string, op: string, columns: seq<string>): Statement
  {
    CreateTrigger(CreatedName(op, table), op, cfg.database.name, table,
                  ColumnConcatenation("IFNULL", RowVariable(op), columns),
                  CallbackUrl(cfg.servers, table, op), op != "INSERT")
  }

  /** What one call of createMySqlTriggerForTable issues when nothing fails. */
  function CreateStatements(cfg: DBConfig, db: Catalog, table: string, op: string): seq<Statement>
  {
    [ListColumns(cfg.database.name, table)]
    + (if op in Events then [CreateStatement(cfg, table, op, Columns(db, table))] else [])
  }

  /** The statements of the create loops, one call per attempted pair. */
  function CreatePhase(cfg: DBConfig, db: Catalog, pairs: seq<(string, string)>): seq<Statement>
  {
    if pairs == [] then []
    else
      var p := pairs[|pairs| - 1];
      CreatePhase(cfg, db, pairs[..|pairs| - 1]) + CreateStatements(cfg, db, p.0, p.1)
  }

  /** The statements of the drop loop. */
  function DropPhase(dbName: string, names: seq<string>): seq<Statement>
  {
    seq(|names|, i requires 0 <= i < |names| => DropTrigger(dbName, names[i]))
  }

  /**
   * The whole pass when nothing fails, given the order `visited` in which the
   * drop loop meets the existing names.
   */
  function Plan(cfg: DBConfig, db: Catalog, visited: seq<string>): seq<Statement>
  {
    [ListTriggers]
    + CreatePhase(cfg, db, Attempts(ExistingMap(db.triggerRows).Keys, cfg.tables))
    + DropPhase(cfg.database.name, Stale(visited, cfg.tables))
  }

  // ---------------------------------------------------------------------
  // The reconciler

  /** The row loop: record each listed name whose table part can be recovered. */
  method RecordExisting(rows: seq<string>) returns (existing: map<string, string>)
    ensures existing == ExistingMap(rows)
  {
    existing := map[];
    for i := 0 to |rows|
      invariant existing == ExistingMap(rows[..i])
    {
      assert rows[..i + 1][..i] == rows[..i];
      var parts := Split(rows[i], "_");
      if |parts| > 3 {
        existing := existing[rows[i] := Join(parts[3..], "_")];
      }
    }
    assert rows[..|rows|] == rows;
  }

  /** createMySqlTriggerForTable: read the columns, then create the trigger for a known operation. */
  method CreateMySqlTriggerForTable(table: string, op: string, cfg: DBConfig, db: Catalog,
                                    fails: Statement -> bool)
    returns (issued: seq<Statement>, failed: bool)
    ensures Run(CreateStatements(cfg, db, table, op), fails) == Outcome(issued, failed)
  {
    var query := ListColumns(cfg.database.name, table);
    issued := [query];
    if fails(query) {
      return issued, true;
    }
    var columns := Columns(db, table);
    var stmt: Statement;
    if op == "INSERT" {
      var rowData := BuildConcatenation("IFNULL", "NEW", columns);
      stmt := CreateTrigger("realtimer_trigger_insert_" + table, "INSERT", cfg.database.name, table,
                            rowData, CallbackUrl(cfg.servers, table, "INSERT"), false);
    } else if op == "UPDATE" {
      var rowData := BuildConcatenation("IFNULL", "NEW", columns);
      stmt := CreateTrigger("realtimer_trigger_update_" + table, "UPDATE", cfg.database.name, table,
                            rowData, CallbackUrl(cfg.servers, table, "UPDATE"), true);
    } else if op == "DELETE" {
      var rowData := BuildConcatenation("IFNULL", "OLD", columns);
      stmt := CreateTrigger("realtimer_trigger_delete_" + table, "DELETE", cfg.database.name, table,
                            rowData, CallbackUrl(cfg.servers, table, "DELETE"), true);
    } else {
      assert CreateStatements(cfg, db, table, op) == [query];
      return issued, false;
    }
    assert stmt == CreateStatement(cfg, table, op, columns);
    assert CreateStatements(cfg, db, table, op) == [query, stmt];
    RunCons([query, stmt], fails);
    assert [query, stmt][1..] == [stmt];
    issued := issued + [stmt];
    failed := fails(stmt);
  }

  /**
   * The inner create loop over one table's operations: create each pair whose
   * canonical name is not an existing one.
   */
  method CreateForTable(cfg: DBConfig, db: Catalog, existing: map<string, string>, table: Table,
                        fails: Statement -> bool)
    returns (issued: seq<Statement>, failed: bool)
    ensures Run(CreatePhase(cfg, db, OpAttempts(existing.Keys, table.name, table.operations)), fails)
            == Outcome(issued, failed)
  {
    var ops := table.operations;
    issued := [];
    for j := 0 to |ops|
      invariant issued == CreatePhase(cfg, db, OpAttempts(existing.Keys, table.name, ops[..j]))
      invariant NoneFail(issued, fails)
    {
      var stop;
      issued, stop := CreateForOperation(cfg, db, existing, table.name, ops, j, issued, fails);
      if stop {
        return issued, true;
      }
    }
    assert ops[..|ops|] == ops;
    RunAll(issued, fails);
    return issued, false;
  }

  /**
   * One turn of the inner create loop: create the pair unless its canonical
   * name exists; a failing create ends the loop.
   */
  method CreateForOperation(cfg: DBConfig, db: Catalog, existing: map<string, string>, table: string,
                            ops: seq<string>, j: nat, issued: seq<Statement>, fails: Statement -> bool)
    returns (after: seq<Statement>, stop: bool)
    requires j < |ops|
    requires issued == CreatePhase(cfg, db, OpAttempts(existing.Keys, table, ops[..j])) && NoneFail(issued, fails)
    ensures stop ==> Run(CreatePhase(cfg, db, OpAttempts(existing.Keys, table, ops)), fails) == Outcome(after, true)
    ensures !stop ==> after == CreatePhase(cfg, db, OpAttempts(existing.Keys, table, ops[..j + 1]))
                      && NoneFail(after, fails)
  {
    if TriggerName(ops[j], table) in existing {
      OpAttemptsStep(existing.Keys, table, ops, j);
      assert OpAttempts(existing.Keys, table, ops[..j + 1]) == OpAttempts(existing.Keys, table, ops[..j]);
      return issued, false;
    }
    var created, createFailed := CreateMySqlTriggerForTable(table, ops[j], cfg, db, fails);
    if createFailed {
      CreateStopsAt(cfg, db, existing.Keys, table, ops, j, issued, fails);
      return issued + created, true;
    }
    CreateContinues(cfg, db, existing.Keys, table, ops, j, issued, fails);
    return issued + created, false;
  }

  /** The outer create loop over the configured tables. */
  method CreateMissing(cfg: DBConfig, db: Catalog, existing: map<string, string>, fails: Statement -> bool)
    returns (issued: seq<Statement>, failed: bool)
    ensures Run(CreatePhase(cfg, db, Attempts(existing.Keys, cfg.tables)), fails) == Outcome(issued, failed)
  {
    ghost var keys := existing.Keys;
    var tables := cfg.tables;
    issued := [];
    for i := 0 to |tables|
      invariant issued == CreatePhase(cfg, db, Attempts(keys, tables[..i]))
      invariant NoneFail(issued, fails)
    {
      ghost var done := Attempts(keys, tables[..i]);
      ghost var step := OpAttempts(keys, tables[i].name, tables[i].operations);
      AttemptsStep(keys, tables, i);
      CreatePhaseAppend(cfg, db, done, step);
      var created, tableFailed := CreateForTable(cfg, db, existing, tables[i], fails);
      if tableFailed {
        AttemptsPrefix(keys, tables, i + 1);
        CreatePhasePrefix(cfg, db, done + step, Attempts(keys, tables));
        RunStopsInside(CreatePhase(cfg, db, Attempts(keys, tables)), issued, CreatePhase(cfg, db, step), fails);
        return issued + created, true;
      }
      RunIssues(CreatePhase(cfg, db, step), fails);
      issued := issued + created;
    }
    assert tables[..|tables|] == tables;
    RunAll(issued, fails);
    return issued, false;
  }

  /**
   * The drop loop: meet every existing name once, in an order the model does
   * not fix (Go map iteration), and drop it if no configured pair produces it.
   */
  method DropStale(cfg: DBConfig, existing: map<string, string>, fails: Statement -> bool)
    returns (issued: seq<Statement>, failed: bool, visited: seq<string>)
    ensures Run(DropPhase(cfg.database.name, Stale(visited, cfg.tables)), fails) == Outcome(issued, failed)
    ensures Distinct(visited)
    ensures forall n :: n in visited ==> n in existing
    ensures !failed ==> forall n :: n in existing ==> n in visited
  {
    var tables := cfg.tables;
    var remaining := existing.Keys;
    issued, visited := [], [];
    while remaining != {}
      invariant issued == DropPhase(cfg.database.name, Stale(visited, tables))
      invariant NoneFail(issued, fails)
      invariant forall n :: n in existing <==> n in remaining || n in visited
      invariant forall n :: n in remaining ==> n !in visited
      invariant Distinct(visited)
      decreases |remaining|
    {
      var name :| name in remaining;
      DropStep(cfg.database.name, visited, name, tables);
      VisitStep(existing, remaining, visited, name);
      remaining := remaining - {name};
      visited := visited + [name];
      if !IsTableInConfig(name, tables) {
        var drop := DropTrigger(cfg.database.name, name);
        issued := issued + [drop];
        if fails(drop) {
          RunStopsAt(issued, issued, fails);
          return issued, true, visited;
        }
      }
    }
    RunAll(issued, fails);
    return issued, false, visited;
  }

  /**
   * initMySqlTriggers: list the existing triggers, create the missing ones,
   * then drop the unconfigured ones, returning at the first failing statement.
   * `visited` is the order in which the drop loop met the existing names.
   */
  method InitMySqlTriggers(cfg: DBConfig, db: Catalog, fails: Statement -> bool)
    returns (err: Option<Statement>, log: seq<Statement>, visited: seq<string>)
    ensures Run(Plan(cfg, db, visited), fails) == Outcome(log, err.Some?)
    ensures err.Some? ==> |log| > 0 && err.value == log[|log| - 1]
    ensures Distinct(visited)
    ensures forall n :: n in visited ==> n in ExistingMap(db.triggerRows)
    ensures err.None? ==> forall n :: n in ExistingMap(db.triggerRows) ==> n in visited
  {
    visited := [];
    log := [ListTriggers];
    if fails(ListTriggers) {
      return Some(ListTriggers), log, visited;
    }
    var existing := RecordExisting(db.triggerRows);
    var created, createFailed := CreateMissing(cfg, db, existing, fails);
    if createFailed {
      PlanStopsInCreates(cfg, db, visited, fails);
      log := log + created;
      return Some(log[|log| - 1]), log, visited;
    }
    var dropped, dropFailed;
    dropped, dropFailed, visited := DropStale(cfg, existing, fails);
    PlanReachesDrops(cfg, db, visited, fails);
    log := log + created + dropped;
    if dropFailed {
      return Some(log[|log| - 1]), log, visited;
    }
    return None, log, visited;
  }

  /** A failing create ends the pass: the drop loop is never reached. */
  lemma PlanStopsInCreates(cfg: DBConfig, db: Catalog, visited: seq<string>, fails: Statement -> bool)
    requires !fails(ListTriggers)
    requires Run(CreatePhase(cfg, db, Attempts(ExistingMap(db.triggerRows).Keys, cfg.tables)), fails).failed
    ensures var r := Run(CreatePhase(cfg, db, Attempts(ExistingMap(db.triggerRows).Keys, cfg.tables)), fails);
            Run(Plan(cfg, db, visited), fails) == Outcome([ListTriggers] + r.issued, true)
            && |r.issued| > 0
  {
    var creates := CreatePhase(cfg, db, Attempts(ExistingMap(db.triggerRows).Keys, cfg.tables));
    PlanRun(cfg, db, visited, fails);
    RunAppend(creates, DropPhase(cfg.database.name, Stale(visited, cfg.tables)), fails);
    RunIssues(creates, fails);
  }

  /** When every create succeeds, the drop loop runs on its own after them. */
  lemma PlanReachesDrops(cfg: DBConfig, db: Catalog, visited: seq<string>, fails: Statement -> bool)
    requires !fails(ListTriggers)
    requires !Run(CreatePhase(cfg, db, Attempts(ExistingMap(db.triggerRows).Keys, cfg.tables)), fails).failed
    ensures var creates := CreatePhase(cfg, db, Attempts(ExistingMap(db.triggerRows).Keys, cfg.tables));
            var r := Run(DropPhase(cfg.database.name, Stale(visited, cfg.tables)), fails);
            Run(creates, fails).issued == creates
            && Run(Plan(cfg, db, visited), fails) == Outcome([ListTriggers] + creates + r.issued, r.failed)
            && (r.failed ==> |r.issued| > 0)
  {
    var creates := CreatePhase(cfg, db, Attempts(ExistingMap(db.triggerRows).Keys, cfg.tables));
    var drops := DropPhase(cfg.database.name, Stale(visited, cfg.tables));
    RunIssues(creates, fails);
    RunIssues(drops, fails);
    PlanRun(cfg, db, visited, fails);
    RunAppend(creates, drops, fails);
    var r := Run(drops, fails);
    assert Run(creates + drops, fails) == Outcome(creates + r.issued, r.failed);
    assert [ListTriggers] + (creates + r.issued) == [ListTriggers] + creates + r.issued;
  }

  /** The listing query succeeds and the rest of the pass runs on its own. */
  lemma PlanRun(cfg: DBConfig, db: Catalog, visited: seq<string>, fails: Statement -> bool)
    requires !fails(ListTriggers)
    ensures var rest := CreatePhase(cfg, db, Attempts(ExistingMap(db.triggerRows).Keys, cfg.tables))
                        + DropPhase(cfg.database.name, Stale(visited, cfg.tables));
            Run(Plan(cfg, db, visited), fails)
            == Outcome([ListTriggers] + Run(rest, fails).issued, Run(rest, fails).failed)
  {
    var rest := CreatePhase(cfg, db, Attempts(ExistingMap(db.triggerRows).Keys, cfg.tables))
                + DropPhase(cfg.database.name, Stale(visited, cfg.tables));
    assert Plan(cfg, db, visited) == [ListTriggers] + rest;
    RunCons([ListTriggers] + rest, fails);
    assert ([ListTriggers] + rest)[1..] == rest;
  }

  /** A failing create inside one table's loop ends the whole inner loop there. */
  lemma CreateStopsAt(cfg: DBConfig, db: Catalog, keys: set<string>, table: string, ops: seq<string>, j: nat,
                      issued: seq<Statement>, fails: Statement -> bool)
    requires j < |ops| && TriggerName(ops[j], table) !in keys
    requires issued == CreatePhase(cfg, db, OpAttempts(keys, table, ops[..j])) && NoneFail(issued, fails)
    requires Run(CreateStatements(cfg, db, table, ops[j]), fails).failed
    ensures Run(CreatePhase(cfg, db, OpAttempts(keys, table, ops)), fails)
            == Outcome(issued + Run(CreateStatements(cfg, db, table, ops[j]), fails).issued, true)
  {
    var done := OpAttempts(keys, table, ops[..j]);
    OpAttemptsStep(keys, table, ops, j);
    CreatePhaseStep(cfg, db, done, (table, ops[j]));
    OpAttemptsPrefix(keys, table, ops, j + 1);
    CreatePhasePrefix(cfg, db, done + [(table, ops[j])], OpAttempts(keys, table, ops));
    RunStopsInside(CreatePhase(cfg, db, OpAttempts(keys, table, ops)), issued, CreateStatements(cfg, db, table, ops[j]), fails);
  }

  /** A create that succeeds extends the inner loop's prefix by its statements. */
  lemma CreateContinues(cfg: DBConfig, db: Catalog, keys: set<string>, table: string, ops: seq<string>, j: nat,
                        issued: seq<Statement>, fails: Statement -> bool)
    requires j < |ops| && TriggerName(ops[j], table) !in keys
    requires issued == CreatePhase(cfg, db, OpAttempts(keys, table, ops[..j])) && NoneFail(issued, fails)
    requires !Run(CreateStatements(cfg, db, table, ops[j]), fails).failed
    ensures issued + Run(CreateStatements(cfg, db, table, ops[j]), fails).issued
            == CreatePhase(cfg, db, OpAttempts(keys, table, ops[..j + 1]))
    ensures NoneFail(issued + Run(CreateStatements(cfg, db, table, ops[j]), fails).issued, fails)
  {
    OpAttemptsStep(keys, table, ops, j);
    CreatePhaseStep(cfg, db, OpAttempts(keys, table, ops[..j]), (table, ops[j]));
    RunIssues(CreateStatements(cfg, db, table, ops[j]), fails);
  }

  lemma CreatePhaseStep(cfg: DBConfig, db: Catalog, done: seq<(string, string)>, p: (string, string))
    ensures CreatePhase(cfg, db, done + [p]) == CreatePhase(cfg, db, done) + CreateStatements(cfg, db, p.0, p.1)
  {
    assert (done + [p])[..|done|] == done;
  }

  /** The drop statements grow by one exactly when the newly met name is stale. */
  lemma DropStep(dbName: string, visited: seq<string>, name: string, tables: seq<Table>)
    ensures DropPhase(dbName, Stale(visited + [name], tables))
            == DropPhase(dbName, Stale(visited, tables)) + (if IsTableInConfig(name, tables) then [] else [DropTrigger(dbName, name)])
  {
    StaleStep(visited, name, tables);
    if IsTableInConfig(name, tables) {
      assert Stale(visited + [name], tables) == Stale(visited, tables);
    } else {
      DropPhaseStep(dbName, Stale(visited, tables), name);
    }
  }

  lemma DropPhaseStep(dbName: string, names: seq<string>, n: string)
    ensures DropPhase(dbName, names + [n]) == DropPhase(dbName, names) + [DropTrigger(dbName, n)]
  {
  }

  lemma {:induction false} CreatePhaseAppend(cfg: DBConfig, db: Catalog, a: seq<(string, string)>, b: seq<(string, string)>)
    ensures CreatePhase(cfg, db, a + b) == CreatePhase(cfg, db, a) + CreatePhase(cfg, db, b)
    decreases |b|
  {
    if b == [] {
      assert a + b == a;
    } else {
      var n := |b| - 1;
      assert (a + b)[..|a| + n] == a + b[..n];
      CreatePhaseAppend(cfg, db, a, b[..n]);
    }
  }

  lemma CreatePhasePrefix(cfg: DBConfig, db: Catalog, a: seq<(string, string)>, b: seq<(string, string)>)
    requires a <= b
    ensures CreatePhase(cfg, db, a) <= CreatePhase(cfg, db, b)
  {
    assert b == a + b[|a|..];
    CreatePhaseAppend(cfg, db, a, b[|a|..]);
  }

  // ---------------------------------------------------------------------
  // Properties of the pass

  /**
   * The row loop records a listed name exactly when it splits into more than
   * three '_'-separated parts, mapping it to parts[3:] rejoined.
   */
  lemma {:induction false} ExistingRecords(rows: seq<string>, n: string)
    ensures n in ExistingMap(rows) <==> n in rows && RecordedTable(n).Some?
    ensures n in ExistingMap(rows) ==> ExistingMap(rows)[n] == RecordedTable(n).value
    decreases |rows|
  {
    if rows != [] {
      var k := |rows| - 1;
      ExistingRecords(rows[..k], n);
      assert rows == rows[..k] + [rows[k]];
    }
  }

  /**
   * A canonical name is recorded with its own table, underscores in the table
   * name included, provided the operation has no '_'.
   */
  lemma CanonicalRecorded(op: string, table: string)
    requires '_' !in op
    ensures RecordedTable(TriggerName(op, table)) == Some(table)
  {
    CanonicalParts(op, table);
    var parts := Split(TriggerName(op, table), "_");
    assert parts[3..] == Split(table, "_");
    JoinSplit(table, "_");
  }

  /** The '_'-separated parts of a canonical name: the two prefix words, the operation, then the table's parts. */
  lemma CanonicalParts(op: string, table: string)
    requires '_' !in op
    ensures Split(TriggerName(op, table), "_") == ["realtimer", "trigger", Lower(op)] + Split(table, "_")
  {
    LowerKeeps(op, '_');
    CanonicalSpelling(op, table);
    ThreeWords("realtimer", "trigger", Lower(op), table);
  }

  lemma ThreeWords(w1: string, w2: string, w3: string, rest: string)
    requires '_' !in w1 && '_' !in w2 && '_' !in w3
    ensures Split(w1 + "_" + (w2 + "_" + (w3 + "_" + rest)), "_") == [w1, w2, w3] + Split(rest, "_")
  {
    var r1 := w2 + "_" + (w3 + "_" + rest);
    TwoWords(w2, w3, rest);
    SplitFirst(w1, '_', r1);
    assert [w1] + ([w2, w3] + Split(rest, "_")) == [w1, w2, w3] + Split(rest, "_");
  }

  lemma TwoWords(w2: string, w3: string, rest: string)
    requires '_' !in w2 && '_' !in w3
    ensures Split(w2 + "_" + (w3 + "_" + rest), "_") == [w2, w3] + Split(rest, "_")
  {
    var r2 := w3 + "_" + rest;
    SplitFirst(w3, '_', rest);
    SplitFirst(w2, '_', r2);
    assert [w2] + ([w3] + Split(rest, "_")) == [w2, w3] + Split(rest, "_");
  }

  lemma CanonicalSpelling(op: string, table: string)
    ensures TriggerName(op, table) == "realtimer" + "_" + ("trigger" + "_" + (Lower(op) + "_" + table))
  {
    assert Prefix == "realtimer" + "_" + ("trigger" + "_");
  }

  /** The operation words in lower case. */
  lemma LowerEvents()
    ensures Lower("INSERT") == "insert" && Lower("UPDATE") == "update" && Lower("DELETE") == "delete"
  {
    LowerWord("INSERT", "insert");
    LowerWord("UPDATE", "update");
    LowerWord("DELETE", "delete");
  }

  lemma LowerWord(w: string, l: string)
    requires |w| == |l| && forall i :: 0 <= i < |w| ==> LowerChar(w[i]) == l[i]
    ensures Lower(w) == l
  {
  }

  /** The name a template writes is the reconciliation key of the same pair. */
  lemma CreatedNameIsKey(op: string, table: string)
    requires op in Events
    ensures CreatedName(op, table) == TriggerName(op, table)
  {
    LowerEvents();
  }

  /** A trigger the pass created is found, with its table, by the next pass's row loop. */
  lemma CreatedFoundNextPass(cfg: DBConfig, table: string, op: string, columns: seq<string>, rows: seq<string>)
    requires op in Events
    requires CreateStatement(cfg, table, op, columns).name in rows
    ensures TriggerName(op, table) in ExistingMap(rows)
    ensures ExistingMap(rows)[TriggerName(op, table)] == table
  {
    CreatedNameIsKey(op, table);
    CanonicalRecorded(op, table);
    ExistingRecords(rows, TriggerName(op, table));
  }

  /**
   * An operation other than exactly INSERT, UPDATE or DELETE only reads the
   * column list: no trigger is created and no error is reported for it.
   */
  lemma UnknownOperationCreatesNothing(cfg: DBConfig, db: Catalog, table: string, op: string, fails: Statement -> bool)
    requires op !in Events
    ensures Run(CreateStatements(cfg, db, table, op), fails)
            == Outcome([ListColumns(cfg.database.name, table)], fails(ListColumns(cfg.database.name, table)))
  {
  }

  /**
   * The trigger body: INSERT and UPDATE read NEW, DELETE reads OLD; the
   * CONCAT text evaluates, for any row image, to the `col: value` body of
   * that row.
   */
  lemma CreatedBodyRendersRow(cfg: DBConfig, table: string, op: string, columns: seq<string>, row: Row)
    requires op in Events
    ensures var stmt := CreateStatement(cfg, table, op, columns);
            var args := ConcatArgs("IFNULL", if op == "DELETE" then "OLD" else "NEW", columns);
            stmt.rowData == Join(ArgTexts(args), ", ")
            && Eval(args, row) == Render(RowPairs(columns, row))
  {
    ConcatenationDenotes("IFNULL", RowVariable(op), columns);
    EvalRendersRow("IFNULL", RowVariable(op), columns, row);
  }

  /** The calls a statement of the create phase can come from. */
  predicate FromCall(cfg: DBConfig, db: Catalog, p: (string, string), s: Statement)
  {
    s in CreateStatements(cfg, db, p.0, p.1)
  }

  lemma {:induction false} CreatePhaseMembers(cfg: DBConfig, db: Catalog, pairs: seq<(string, string)>, s: Statement)
    ensures s in CreatePhase(cfg, db, pairs) <==> exists k :: 0 <= k < |pairs| && FromCall(cfg, db, pairs[k], s)
    decreases |pairs|
  {
    if pairs != [] {
      var n := |pairs| - 1;
      var front := pairs[..n];
      CreatePhaseMembers(cfg, db, front, s);
      assert CreatePhase(cfg, db, pairs) == CreatePhase(cfg, db, front) + CreateStatements(cfg, db, pairs[n].0, pairs[n].1);
      ExistsSplitLast(pairs, front, p => FromCall(cfg, db, p, s));
    }
  }

  /**
   * A create is attempted (the column query issued) for a configured pair
   * exactly when its key is missing, and a CREATE TRIGGER follows exactly
   * when, in addition, the operation is one with a template.
   */
  lemma CreatesExactlyMissing(cfg: DBConfig, db: Catalog, t: string, op: string)
    ensures var creates := CreatePhase(cfg, db, Attempts(ExistingMap(db.triggerRows).Keys, cfg.tables));
            var missing := Configured(cfg.tables, t, op) && TriggerName(op, t) !in ExistingMap(db.triggerRows);
            (exists s :: s in creates && s.CreateTrigger? && s.table == t && s.event == op)
            <==> missing && op in Events
  {
    var keys := ExistingMap(db.triggerRows).Keys;
    AttemptedExactlyMissing(keys, cfg.tables, t, op);
    CreatedOnlyIfAttempted(cfg, db, Attempts(keys, cfg.tables), t, op);
    if (t, op) in Attempts(keys, cfg.tables) && op in Events {
      CreatedIfAttempted(cfg, db, Attempts(keys, cfg.tables), t, op);
    }
  }

  lemma CreatedOnlyIfAttempted(cfg: DBConfig, db: Catalog, pairs: seq<(string, string)>, t: string, op: string)
    ensures (exists s :: s in CreatePhase(cfg, db, pairs) && s.CreateTrigger? && s.table == t && s.event == op)
            ==> (t, op) in pairs && op in Events
  {
    if exists s :: s in CreatePhase(cfg, db, pairs) && s.CreateTrigger? && s.table == t && s.event == op {
      var s :| s in CreatePhase(cfg, db, pairs) && s.CreateTrigger? && s.table == t && s.event == op;
      CreatePhaseMembers(cfg, db, pairs, s);
      var k :| 0 <= k < |pairs| && FromCall(cfg, db, pairs[k], s);
      assert pairs[k] == (t, op);
    }
  }

  lemma CreatedIfAttempted(cfg: DBConfig, db: Catalog, pairs: seq<(string, string)>, t: string, op: string)
    requires (t, op) in pairs && op in Events
    ensures exists s :: s in CreatePhase(cfg, db, pairs) && s.CreateTrigger? && s.table == t && s.event == op
  {
    var s := CreateStatement(cfg, t, op, Columns(db, t));
    var k :| 0 <= k < |pairs| && pairs[k] == (t, op);
    assert FromCall(cfg, db, pairs[k], s);
    CreatePhaseMembers(cfg, db, pairs, s);
  }

  /**
   * On a pass that completes, an existing name is dropped exactly when no
   * configured pair produces it, and never twice.
   */
  lemma DropsExactlyStale(cfg: DBConfig, existing: map<string, string>, visited: seq<string>, schema: string, n: string)
    requires Distinct(visited)
    requires forall m :: m in visited <==> m in existing
    ensures DropTrigger(schema, n) in DropPhase(cfg.database.name, Stale(visited, cfg.tables))
            <==> schema == cfg.database.name && n in existing && !IsTableInConfig(n, cfg.tables)
    ensures forall i, j :: 0 <= i < j < |DropPhase(cfg.database.name, Stale(visited, cfg.tables))| ==>
              DropPhase(cfg.database.name, Stale(visited, cfg.tables))[i]
              != DropPhase(cfg.database.name, Stale(visited, cfg.tables))[j]
  {
    var stale := Stale(visited, cfg.tables);
    StaleExactly(visited, cfg.tables, n);
    StaleDistinct(visited, cfg.tables);
    var drops := DropPhase(cfg.database.name, stale);
    if DropTrigger(schema, n) in drops {
      var k :| 0 <= k < |drops| && drops[k] == DropTrigger(schema, n);
      assert stale[k] == n;
    }
    if n in stale {
      var k :| 0 <= k < |stale| && stale[k] == n;
      assert drops[k] == DropTrigger(cfg.database.name, n);
    }
    forall i, j | 0 <= i < j < |drops| ensures drops[i] != drops[j] {
      assert stale[i] != stale[j];
    }
  }

  /**
   * Idempotence: when the recorded names are exactly the canonical names of
   * the configured pairs, the pass issues the listing query and nothing else,
   * whatever the drop order.
   */
  lemma Idempotent(cfg: DBConfig, db: Catalog, visited: seq<string>)
    requires ExistingMap(db.triggerRows).Keys == ConfiguredNames(cfg.tables)
    requires forall n :: n in visited ==> n in ExistingMap(db.triggerRows)
    ensures Plan(cfg, db, visited) == [ListTriggers]
  {
    NothingMissing(ExistingMap(db.triggerRows).Keys, cfg.tables);
    forall n | n in visited ensures IsTableInConfig(n, cfg.tables) {
      assert n in ConfiguredNames(cfg.tables);
    }
    NothingStale(visited, cfg.tables);
  }

  /**
   * The listing as the pass leaves it: when it lists exactly the canonical
   * names of the configured pairs and no operation contains '_', those are
   * exactly the recorded names, so the pass is idempotent.
   */
  lemma CanonicalListingRecorded(tables: seq<Table>, rows: seq<string>)
    requires forall i, j :: 0 <= i < |tables| && 0 <= j < |tables[i].operations| ==> '_' !in tables[i].operations[j]
    requires forall n :: n in rows <==> n in ConfiguredNames(tables)
    ensures ExistingMap(rows).Keys == ConfiguredNames(tables)
  {
    forall n | n in ConfiguredNames(tables) ensures n in ExistingMap(rows) {
      var i, j :| 0 <= i < |tables| && 0 <= j < |tables[i].operations|
                  && n == TriggerName(tables[i].operations[j], tables[i].name);
      CanonicalRecorded(tables[i].operations[j], tables[i].name);
      ExistingRecords(rows, n);
    }
    forall n | n in ExistingMap(rows) ensures n in ConfiguredNames(tables) {
      ExistingRecords(rows, n);
    }
  }

  lemma {:induction false} NoDropInCreates(cfg: DBConfig, db: Catalog, pairs: seq<(string, string)>)
    ensures forall k :: 0 <= k < |CreatePhase(cfg, db, pairs)| ==> !CreatePhase(cfg, db, pairs)[k].DropTrigger?
    decreases |pairs|
  {
    if pairs != [] {
      NoDropInCreates(cfg, db, pairs[..|pairs| - 1]);
    }
  }

  /**
   * Drops come only after every create succeeded: if the pass issued any DROP,
   * it issued the listing query and the whole create phase before it.
   */
  lemma DropsAfterCreates(cfg: DBConfig, db: Catalog, visited: seq<string>, fails: Statement -> bool)
    ensures var issued := Run(Plan(cfg, db, visited), fails).issued;
            (exists k :: 0 <= k < |issued| && issued[k].DropTrigger?)
            ==> [ListTriggers] + CreatePhase(cfg, db, Attempts(ExistingMap(db.triggerRows).Keys, cfg.tables)) <= issued
  {
    var prefix := [ListTriggers] + CreatePhase(cfg, db, Attempts(ExistingMap(db.triggerRows).Keys, cfg.tables));
    var drops := DropPhase(cfg.database.name, Stale(visited, cfg.tables));
    assert Plan(cfg, db, visited) == prefix + drops;
    RunAppend(prefix, drops, fails);
    RunIssues(prefix, fails);
    NoDropInCreates(cfg, db, Attempts(ExistingMap(db.triggerRows).Keys, cfg.tables));
    assert forall k :: 0 <= k < |prefix| ==> !prefix[k].DropTrigger?;
  }
}

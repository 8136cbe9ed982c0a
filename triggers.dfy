/**
 * The trigger naming convention shared by both backends, and the membership
 * test `isTableInConfig` that decides which existing triggers to keep.
 */
module Triggers {
  import opened Text
  import opened Config

  /** The reserved prefix of every trigger the system manages. */
  const Prefix: string := "realtimer_trigger_"

  /** The canonical trigger name for an operation on a table. */
  function TriggerName(operation: string, table: string): string
  {
    Prefix + Lower(operation) + "_" + table
  }

  /** The canonical names of the operations configured for one table. */
  function TableNames(t: Table): set<string>
  {
    set j | 0 <= j < |t.operations| :: TriggerName(t.operations[j], t.name)
  }

  /** The canonical names of every configured (table, operation) pair. */
  function ConfiguredNames(tables: seq<Table>): set<string>
  {
    set i, j | 0 <= i < |tables| && 0 <= j < |tables[i].operations|
      :: TriggerName(tables[i].operations[j], tables[i].name)
  }

  /** The inner loop of isTableInConfig: does some operation of `table` produce the name? */
  function OperationMatches(triggerName: string, table: string, operations: seq<string>): (r: bool)
    ensures r <==> exists j :: 0 <= j < |operations| && TriggerName(operations[j], table) == triggerName
  {
    if operations == [] then false
    else
      TriggerName(operations[0], table) == triggerName
      || (assert forall j :: 1 <= j < |operations| ==> operations[j] == operations[1..][j - 1];
          OperationMatches(triggerName, table, operations[1..]))
  }

  /**
   * isTableInConfig: true exactly when some configured table and one of its
   * operations have `triggerName` as canonical name.
   */
  function IsTableInConfig(triggerName: string, tables: seq<Table>): (r: bool)
    ensures r <==> triggerName in ConfiguredNames(tables)
  {
    if tables == [] then false
    else
      ConfiguredCons(tables);
      OperationMatches(triggerName, tables[0].name, tables[0].operations)
      || IsTableInConfig(triggerName, tables[1..])
  }

  lemma ConfiguredCons(tables: seq<Table>)
    requires tables != []
    ensures ConfiguredNames(tables) == TableNames(tables[0]) + ConfiguredNames(tables[1..])
  {
    var rest := tables[1..];
    forall n | n in ConfiguredNames(tables)
      ensures n in TableNames(tables[0]) + ConfiguredNames(rest)
    {
      var i, j :| 0 <= i < |tables| && 0 <= j < |tables[i].operations|
                  && n == TriggerName(tables[i].operations[j], tables[i].name);
      if i > 0 {
        assert tables[i] == rest[i - 1];
      }
    }
    forall n | n in ConfiguredNames(rest)
      ensures n in ConfiguredNames(tables)
    {
      var i, j :| 0 <= i < |rest| && 0 <= j < |rest[i].operations|
                  && n == TriggerName(rest[i].operations[j], rest[i].name);
      assert rest[i] == tables[i + 1];
    }
  }

  // ---------------------------------------------------------------------
  // Properties of the convention

  /** Without tables, or with tables that list no operation, nothing is configured. */
  lemma NothingConfigured(triggerName: string, tables: seq<Table>)
    requires forall i :: 0 <= i < |tables| ==> tables[i].operations == []
    ensures !IsTableInConfig(triggerName, tables)
  {
  }

  /** The answer depends only on which tables are configured, not on their order or repetition. */
  lemma OrderIrrelevant(triggerName: string, tables: seq<Table>, others: seq<Table>)
    requires forall t :: t in tables <==> t in others
    ensures IsTableInConfig(triggerName, tables) == IsTableInConfig(triggerName, others)
  {
    SameTablesSameNames(tables, others);
    SameTablesSameNames(others, tables);
  }

  lemma SameTablesSameNames(tables: seq<Table>, others: seq<Table>)
    requires forall t :: t in tables ==> t in others
    ensures ConfiguredNames(tables) <= ConfiguredNames(others)
  {
    forall n | n in ConfiguredNames(tables)
      ensures n in ConfiguredNames(others)
    {
      var i, j :| 0 <= i < |tables| && 0 <= j < |tables[i].operations|
                  && n == TriggerName(tables[i].operations[j], tables[i].name);
      assert tables[i] in others;
      var k :| 0 <= k < |others| && others[k] == tables[i];
      assert n == TriggerName(others[k].operations[j], others[k].name);
    }
  }

  /** Nor on the order or repetition of each table's operations. */
  lemma OperationOrderIrrelevant(triggerName: string, tables: seq<Table>, others: seq<Table>)
    requires |tables| == |others|
    requires forall i :: 0 <= i < |tables| ==>
               tables[i].name == others[i].name
               && forall o :: o in tables[i].operations <==> o in others[i].operations
    ensures IsTableInConfig(triggerName, tables) == IsTableInConfig(triggerName, others)
  {
    SameOperationsSameNames(tables, others);
    SameOperationsSameNames(others, tables);
  }

  lemma SameOperationsSameNames(tables: seq<Table>, others: seq<Table>)
    requires |tables| == |others|
    requires forall i :: 0 <= i < |tables| ==>
               tables[i].name == others[i].name
               && forall o :: o in tables[i].operations ==> o in others[i].operations
    ensures ConfiguredNames(tables) <= ConfiguredNames(others)
  {
    forall n | n in ConfiguredNames(tables)
      ensures n in ConfiguredNames(others)
    {
      var i, j :| 0 <= i < |tables| && 0 <= j < |tables[i].operations|
                  && n == TriggerName(tables[i].operations[j], tables[i].name);
      var op := tables[i].operations[j];
      assert op in others[i].operations;
      var k :| 0 <= k < |others[i].operations| && others[i].operations[k] == op;
      assert n == TriggerName(others[i].operations[k], others[i].name);
    }
  }

  /** Two configurations whose operations agree up to letter case give the same answers. */
  lemma OperationCaseIgnored(triggerName: string, tables: seq<Table>, others: seq<Table>)
    requires |tables| == |others|
    requires forall i :: 0 <= i < |tables| ==>
               tables[i].name == others[i].name
               && |tables[i].operations| == |others[i].operations|
               && forall j :: 0 <= j < |tables[i].operations| ==>
                    Lower(tables[i].operations[j]) == Lower(others[i].operations[j])
    ensures IsTableInConfig(triggerName, tables) == IsTableInConfig(triggerName, others)
  {
    forall n | n in ConfiguredNames(tables)
      ensures n in ConfiguredNames(others)
    {
      var i, j :| 0 <= i < |tables| && 0 <= j < |tables[i].operations|
                  && n == TriggerName(tables[i].operations[j], tables[i].name);
      assert n == TriggerName(others[i].operations[j], others[i].name);
    }
    forall n | n in ConfiguredNames(others)
      ensures n in ConfiguredNames(tables)
    {
      var i, j :| 0 <= i < |others| && 0 <= j < |others[i].operations|
                  && n == TriggerName(others[i].operations[j], others[i].name);
      assert n == TriggerName(tables[i].operations[j], tables[i].name);
    }
  }

  /** Illustration: the table part is compared as written, so `Orders` is not the configured `orders`. */
  lemma TableCaseMatters()
    ensures IsTableInConfig("realtimer_trigger_insert_orders", [Table("orders", ["INSERT"])])
    ensures !IsTableInConfig("realtimer_trigger_insert_Orders", [Table("orders", ["INSERT"])])
  {
    var t := Table("orders", ["INSERT"]);
    assert Lower("INSERT") == "insert";
    assert TriggerName("INSERT", "orders") == "realtimer_trigger_insert_orders";
    assert OperationMatches("realtimer_trigger_insert_orders", t.name, t.operations);
    assert [t][1..] == [];
  }

  /**
   * For operations without '_', the name of (op, table) is configured exactly
   * when some configured table has that very name, compared as written, and
   * lists an operation equal to `op` up to letter case.
   */
  lemma NameMatchesExactly(op: string, table: string, tables: seq<Table>)
    requires '_' !in op
    requires forall i, j :: 0 <= i < |tables| && 0 <= j < |tables[i].operations| ==> '_' !in tables[i].operations[j]
    ensures IsTableInConfig(TriggerName(op, table), tables) <==>
              exists i, j :: 0 <= i < |tables| && 0 <= j < |tables[i].operations|
                             && tables[i].name == table && Lower(tables[i].operations[j]) == Lower(op)
  {
    if IsTableInConfig(TriggerName(op, table), tables) {
      var i, j :| 0 <= i < |tables| && 0 <= j < |tables[i].operations|
                  && TriggerName(op, table) == TriggerName(tables[i].operations[j], tables[i].name);
      TriggerNameInjective(op, table, tables[i].operations[j], tables[i].name);
    }
  }

  /**
   * The name determines the pair: for operations without '_', equal canonical
   * names mean equal lower-cased operations and equal tables.
   */
  lemma TriggerNameInjective(op1: string, table1: string, op2: string, table2: string)
    requires '_' !in op1 && '_' !in op2
    requires TriggerName(op1, table1) == TriggerName(op2, table2)
    ensures Lower(op1) == Lower(op2) && table1 == table2
  {
    LowerKeeps(op1, '_');
    LowerKeeps(op2, '_');
    var rest1 := Lower(op1) + "_" + table1;
    var rest2 := Lower(op2) + "_" + table2;
    assert TriggerName(op1, table1) == Prefix + rest1;
    assert TriggerName(op2, table2) == Prefix + rest2;
    assert rest1 == TriggerName(op1, table1)[|Prefix|..];
    assert rest2 == TriggerName(op2, table2)[|Prefix|..];
    SplitAtChar(Lower(op1), Lower(op2), '_', table1, table2);
  }
}

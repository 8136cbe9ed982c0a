/**
 * The row payload text both reconcilers generate.
 *
 * Both backends build a list of SQL arguments by string templating over the
 * table's columns: each column contributes `'col: ', FN(ROW.col, 'NULL')`
 * (FN is IFNULL for MySQL and COALESCE for Postgres, ROW is NEW or OLD), and
 * the contributions are joined with `, ', ', `. MySQL places that list in a
 * `CONCAT(...)` call; when the database evaluates it for an affected row, the
 * result is the wire body `col1: val1, col2: val2, ...`. Postgres places the
 * same text, unevaluated, inside a quoted string constant.
 */
module RowFormat {
  import opened Wrappers
  import opened Text

  /** The text one column contributes to the CONCAT argument list. */
  function ColumnTerm(nullFn: string, rowVar: string, column: string): string
  {
    "'" + column + ": ', " + nullFn + "(" + rowVar + "." + column + ", 'NULL')"
  }

  /** The separator placed between two column contributions. */
  const TermSeparator: string := ", ', ', "

  function ColumnTerms(nullFn: string, rowVar: string, columns: seq<string>): seq<string>
  {
    seq(|columns|, i requires 0 <= i < |columns| => ColumnTerm(nullFn, rowVar, columns[i]))
  }

  /** The CONCAT argument text, as the reconcilers generate it. */
  function ColumnConcatenation(nullFn: string, rowVar: string, columns: seq<string>): string
  {
    Join(ColumnTerms(nullFn, rowVar, columns), TermSeparator)
  }

  /** One argument of the CONCAT call, read back as the database sees it. */
  datatype ConcatArg =
    | Literal(text: string)
    | ColumnOrNull(nullFn: string, rowVar: string, column: string)

  /** The SQL text of one argument. */
  function ArgText(a: ConcatArg): string
  {
    match a
    case Literal(t) => "'" + t + "'"
    case ColumnOrNull(fn, rowVar, c) => fn + "(" + rowVar + "." + c + ", 'NULL')"
  }

  function ArgTexts(args: seq<ConcatArg>): seq<string>
  {
    seq(|args|, i requires 0 <= i < |args| => ArgText(args[i]))
  }

  /** The argument list the generated text denotes. */
  function ConcatArgs(nullFn: string, rowVar: string, columns: seq<string>): seq<ConcatArg>
  {
    if |columns| == 0 then []
    else if |columns| == 1 then [Literal(columns[0] + ": "), ColumnOrNull(nullFn, rowVar, columns[0])]
    else
      [Literal(columns[0] + ": "), ColumnOrNull(nullFn, rowVar, columns[0]), Literal(", ")]
      + ConcatArgs(nullFn, rowVar, columns[1..])
  }

  /** A row image: column name to value, `None` for SQL NULL. */
  type Row = map<string, Option<string>>

  /** FN(ROW.col, 'NULL') for the row image: the value, or the text NULL. */
  function ValueOrNull(row: Row, column: string): string
  {
    if column in row && row[column].Some? then row[column].value else "NULL"
  }

  function EvalArg(a: ConcatArg, row: Row): string
  {
    match a
    case Literal(t) => t
    case ColumnOrNull(_, _, c) => ValueOrNull(row, c)
  }

  /** CONCAT evaluated over the row image the trigger reads (NEW or OLD). */
  function Eval(args: seq<ConcatArg>, row: Row): string
  {
    if args == [] then "" else EvalArg(args[0], row) + Eval(args[1..], row)
  }

  /** One `column: value` pair of the wire body. */
  function Pair(p: (string, string)): string
  {
    p.0 + ": " + p.1
  }

  /** The wire body: the pairs joined with ", ". */
  function Render(pairs: seq<(string, string)>): string
  {
    if |pairs| == 0 then ""
    else if |pairs| == 1 then Pair(pairs[0])
    else Pair(pairs[0]) + ", " + Render(pairs[1..])
  }

  /** The (column, value) pairs of a row image, in column order. */
  function RowPairs(columns: seq<string>, row: Row): seq<(string, string)>
  {
    seq(|columns|, i requires 0 <= i < |columns| => (columns[i], ValueOrNull(row, columns[i])))
  }

  /** With at least one column, the generated text opens with the quote of the first literal. */
  lemma ConcatenationOpensWithQuote(nullFn: string, rowVar: string, columns: seq<string>)
    requires |columns| > 0
    ensures |ColumnConcatenation(nullFn, rowVar, columns)| > 0
            && ColumnConcatenation(nullFn, rowVar, columns)[0] == '\''
  {
    var terms := ColumnTerms(nullFn, rowVar, columns);
    var first := ColumnTerm(nullFn, rowVar, columns[0]);
    assert terms[0] == first && first[0] == '\'';
    if |columns| > 1 {
      assert terms == [first] + terms[1..];
      JoinCons(first, terms[1..], TermSeparator);
    }
  }

  /**
   * The column loop of both create functions: one term appended per column,
   * the terms then joined with the separator.
   */
  method BuildConcatenation(nullFn: string, rowVar: string, columns: seq<string>) returns (text: string)
    ensures text == ColumnConcatenation(nullFn, rowVar, columns)
  {
    var terms: seq<string> := [];
    for k := 0 to |columns|
      invariant terms == ColumnTerms(nullFn, rowVar, columns[..k])
    {
      terms := terms + [ColumnTerm(nullFn, rowVar, columns[k])];
    }
    assert columns[..|columns|] == columns;
    text := Join(terms, TermSeparator);
  }

  // ---------------------------------------------------------------------
  // Lemmas

  /**
   * The generated text is exactly the argument list ConcatArgs, each argument
   * printed and the arguments separated by ", ".
   */
  lemma {:induction false} ConcatenationDenotes(nullFn: string, rowVar: string, columns: seq<string>)
    ensures ColumnConcatenation(nullFn, rowVar, columns)
            == Join(ArgTexts(ConcatArgs(nullFn, rowVar, columns)), ", ")
    decreases |columns|
  {
    if |columns| == 1 {
      var c := columns[0];
      assert ColumnTerms(nullFn, rowVar, columns) == [ColumnTerm(nullFn, rowVar, c)];
      assert ArgTexts(ConcatArgs(nullFn, rowVar, columns))
             == [ArgText(Literal(c + ": ")), ArgText(ColumnOrNull(nullFn, rowVar, c))];
    } else if |columns| > 1 {
      var c, rest := columns[0], columns[1..];
      ConcatenationDenotes(nullFn, rowVar, rest);
      var restTexts := ArgTexts(ConcatArgs(nullFn, rowVar, rest));
      ArgsCons(nullFn, rowVar, columns);
      JoinThree(ArgText(Literal(c + ": ")), ArgText(ColumnOrNull(nullFn, rowVar, c)), "', '", restTexts, ", ");
      TermsCons(nullFn, rowVar, columns);
      JoinCons(ColumnTerm(nullFn, rowVar, c), ColumnTerms(nullFn, rowVar, rest), TermSeparator);
      TermSplits(nullFn, rowVar, c, Join(restTexts, ", "));
    }
  }

  lemma TermSplits(nullFn: string, rowVar: string, c: string, tail: string)
    ensures ColumnTerm(nullFn, rowVar, c) + TermSeparator + tail
            == ArgText(Literal(c + ": ")) + ", " + (ArgText(ColumnOrNull(nullFn, rowVar, c)) + ", " + ("', '" + ", " + tail))
  {
    var lit := ArgText(Literal(c + ": "));
    var value := ArgText(ColumnOrNull(nullFn, rowVar, c));
    assert lit == "'" + c + ": '";
    assert ColumnTerm(nullFn, rowVar, c) == lit + ", " + value;
    assert TermSeparator == ", " + ("', '" + ", ");
  }

  lemma ArgsCons(nullFn: string, rowVar: string, columns: seq<string>)
    requires |columns| > 1
    ensures |ArgTexts(ConcatArgs(nullFn, rowVar, columns[1..]))| >= 1
    ensures ArgTexts(ConcatArgs(nullFn, rowVar, columns))
            == [ArgText(Literal(columns[0] + ": ")), ArgText(ColumnOrNull(nullFn, rowVar, columns[0])), "', '"]
               + ArgTexts(ConcatArgs(nullFn, rowVar, columns[1..]))
  {
    ArgsLength(nullFn, rowVar, columns[1..]);
    var head := [Literal(columns[0] + ": "), ColumnOrNull(nullFn, rowVar, columns[0]), Literal(", ")];
    ArgTextsAppend(head, ConcatArgs(nullFn, rowVar, columns[1..]));
    assert ArgText(Literal(", ")) == "', '";
  }

  lemma TermsCons(nullFn: string, rowVar: string, columns: seq<string>)
    requires |columns| > 1
    ensures ColumnTerms(nullFn, rowVar, columns)
            == [ColumnTerm(nullFn, rowVar, columns[0])] + ColumnTerms(nullFn, rowVar, columns[1..])
  {
  }

  lemma JoinThree(a: string, b: string, x: string, ys: seq<string>, sep: string)
    requires |ys| >= 1
    ensures Join([a, b, x] + ys, sep) == a + sep + (b + sep + (x + sep + Join(ys, sep)))
  {
    JoinCons(x, ys, sep);
    JoinCons(b, [x] + ys, sep);
    assert [a, b, x] + ys == [a] + ([b] + ([x] + ys));
    JoinCons(a, [b] + ([x] + ys), sep);
  }

  lemma {:induction false} ArgsLength(nullFn: string, rowVar: string, columns: seq<string>)
    ensures |ConcatArgs(nullFn, rowVar, columns)| == (if |columns| == 0 then 0 else 3 * |columns| - 1)
    decreases |columns|
  {
    if |columns| > 1 {
      ArgsLength(nullFn, rowVar, columns[1..]);
    }
  }

  lemma ArgTextsAppend(a: seq<ConcatArg>, b: seq<ConcatArg>)
    ensures ArgTexts(a + b) == ArgTexts(a) + ArgTexts(b)
  {
  }

  lemma {:induction false} EvalAppend(a: seq<ConcatArg>, b: seq<ConcatArg>, row: Row)
    ensures Eval(a + b, row) == Eval(a, row) + Eval(b, row)
    decreases |a|
  {
    if a == [] {
      assert a + b == b;
    } else {
      assert (a + b)[1..] == a[1..] + b;
      EvalAppend(a[1..], b, row);
    }
  }

  /**
   * Evaluating the generated CONCAT for a row gives the wire body of that
   * row's (column, value) pairs, NULL values rendered as the text NULL.
   */
  lemma {:induction false} EvalRendersRow(nullFn: string, rowVar: string, columns: seq<string>, row: Row)
    ensures Eval(ConcatArgs(nullFn, rowVar, columns), row) == Render(RowPairs(columns, row))
    decreases |columns|
  {
    var pairs := RowPairs(columns, row);
    if |columns| == 1 {
      EvalOneColumn(nullFn, rowVar, columns[0], row);
      assert ConcatArgs(nullFn, rowVar, columns) == [Literal(columns[0] + ": "), ColumnOrNull(nullFn, rowVar, columns[0])];
      assert pairs == [(columns[0], ValueOrNull(row, columns[0]))];
    } else if |columns| > 1 {
      var c, rest := columns[0], columns[1..];
      EvalRendersRow(nullFn, rowVar, rest, row);
      var head := [Literal(c + ": "), ColumnOrNull(nullFn, rowVar, c), Literal(", ")];
      EvalAppend(head, ConcatArgs(nullFn, rowVar, rest), row);
      EvalHeadColumn(nullFn, rowVar, c, row);
      assert pairs[0] == (c, ValueOrNull(row, c));
      assert pairs[1..] == RowPairs(rest, row);
    }
  }

  lemma EvalOneColumn(nullFn: string, rowVar: string, c: string, row: Row)
    ensures Eval([Literal(c + ": "), ColumnOrNull(nullFn, rowVar, c)], row) == Pair((c, ValueOrNull(row, c)))
  {
    var args := [Literal(c + ": "), ColumnOrNull(nullFn, rowVar, c)];
    var v := ValueOrNull(row, c);
    assert args[1..][1..] == [];
    assert Eval(args[1..], row) == v + Eval(args[1..][1..], row);
    assert Eval(args, row) == c + ": " + (v + "");
  }

  lemma EvalHeadColumn(nullFn: string, rowVar: string, c: string, row: Row)
    ensures Eval([Literal(c + ": "), ColumnOrNull(nullFn, rowVar, c), Literal(", ")], row)
            == Pair((c, ValueOrNull(row, c))) + ", "
  {
    var head := [Literal(c + ": "), ColumnOrNull(nullFn, rowVar, c), Literal(", ")];
    var v := ValueOrNull(row, c);
    assert head[1..][1..][1..] == [];
    assert Eval(head[1..][1..], row) == ", " + Eval(head[1..][1..][1..], row);
    assert Eval(head[1..], row) == v + Eval(head[1..][1..], row);
    assert Eval(head, row) == c + ": " + (v + (", " + ""));
  }
}

/**
 * The statement executor's helpers of SQLExec.cpp that only translate and
 * check: the WHERE clause turned into a dictionary, a column definition
 * turned into an attribute, INSERT's eligibility check and value binding,
 * DROP TABLE's guard on the schema tables, and CREATE INDEX's catalog rows.
 * The parse tree is the SQL parser's `Expr`; the catalogs (`_tables`,
 * `_columns`, `_indices`) and the relations themselves are not part of this
 * model: what they would be given is returned instead.
 */
module SQLExec {
  import opened Values

  // ---------------------------------------------------------------------
  // The parse tree

  /** The kinds of parsed expression node (the parser's ExprType). */
  datatype ExprType =
    | LiteralFloat | LiteralString | LiteralInt | Star | Placeholder
    | ColumnRef | FunctionRef | Operator | SubSelect

  /** The operator of an Operator node (the parser's Expr::OperatorType). */
  datatype OperatorType =
    | NoOperator | SimpleOp | NotEquals | LessEq | GreaterEq | Like | NotLike
    | And | Or | In | Not | UMinus | IsNull | Exists | Between | Case

  /**
   * A parsed expression: its kind, its operator (for Operator nodes), its
   * operands `expr` and `expr2` (absent where the parser leaves them null),
   * a name (column name or string literal) and an integer literal.
   */
  datatype Expr = Expr(
    exprType: ExprType, opType: OperatorType,
    expr: Option<Expr>, expr2: Option<Expr>,
    name: string, ival: int64)

  /** The parser gives every AND and simple-operator node both operands. */
  predicate WellFormed(e: Expr)
    decreases e
  {
    e.exprType == Operator && (e.opType == And || e.opType == SimpleOp) ==>
      && e.expr.Some? && e.expr2.Some?
      && (e.opType == And ==> WellFormed(e.expr.value) && WellFormed(e.expr2.value))
  }

  /**
   * The value a literal node stands for: Value(expr->name) for a string,
   * Value(expr->ival) for an int, whose int64 is narrowed to the int32 of
   * Value; any other node is no literal.
   */
  function LiteralValue(e: Expr): (r: Option<Value>)
    ensures r.Some? <==> e.exprType == LiteralString || e.exprType == LiteralInt
    ensures e.exprType == LiteralString ==> r == Some(TextValue(e.name))
    ensures e.exprType == LiteralInt ==> r.value.dataType == INT && r.value.n as int % 0x1_0000_0000 == e.ival as int % 0x1_0000_0000
  {
    match e.exprType
    case LiteralString => Some(TextValue(e.name))
    case LiteralInt => Some(IntValue(ToInt32(e.ival)))
    case _ => None
  }

  // ---------------------------------------------------------------------
  // get_where_conjunction

  /**
   * `rows->insert(first..); rows->insert(second..)` on an empty map: every
   * key of either, with the first map's value wherever both have the key,
   * because map::insert does not overwrite.
   */
  function InsertBoth(first: ValueDict, second: ValueDict): (r: ValueDict)
    ensures r.Keys == first.Keys + second.Keys
    ensures forall k | k in first :: r[k] == first[k]
    ensures forall k | k in second && k !in first :: r[k] == second[k]
  {
    second + first
  }

  const UnsupportType := DbRelationError("Unsupport type!")
  const UnsupportOpType := DbRelationError("Unsupport opType!")
  const UnrecognizedValue := DbRelationError("Unrecognized value!")

  /**
   * get_where_conjunction (SQLExec.cpp:206-238): an AND of `column = literal`
   * terms as a dictionary from column to literal; an AND merges its operands'
   * dictionaries, the left one winning; anything else raises DbRelationError.
   */
  function GetWhereConjunction(e: Expr): (r: Result<ValueDict>)
    requires WellFormed(e)
    ensures r.Failure? ==> r.error in {UnsupportType, UnsupportOpType, UnrecognizedValue}
    ensures e.exprType != Operator ==> r == Failure(UnsupportType)
    ensures e.exprType == Operator && e.opType != And && e.opType != SimpleOp ==> r == Failure(UnsupportOpType)
    ensures e.exprType == Operator && e.opType == SimpleOp && LiteralValue(e.expr2.value).None? ==> r == Failure(UnrecognizedValue)
    decreases e
  {
    if e.exprType != Operator then Failure(UnsupportType)
    else if e.opType == And then
      match GetWhereConjunction(e.expr.value)
      case Failure(err) => Failure(err)
      case Success(left) =>
        match GetWhereConjunction(e.expr2.value)
        case Failure(err) => Failure(err)
        case Success(right) => Success(InsertBoth(left, right))
    else if e.opType == SimpleOp then
      match LiteralValue(e.expr2.value)
      case None => Failure(UnrecognizedValue)
      case Some(v) => Success(map[e.expr.value.name := v])
    else Failure(UnsupportOpType)
  }

  /**
   * The reference reading of a WHERE clause: its `column = literal` terms
   * from left to right, or None if the tree holds a node other than AND and
   * simple operators, or an operand that is no string or int literal.
   */
  ghost function Equalities(e: Expr): Option<seq<(Identifier, Value)>>
    requires WellFormed(e)
    decreases e
  {
    if e.exprType != Operator then None
    else if e.opType == And then
      match Equalities(e.expr.value)
      case None => None
      case Some(left) =>
        match Equalities(e.expr2.value)
        case None => None
        case Some(right) => Some(left + right)
    else if e.opType == SimpleOp then
      match LiteralValue(e.expr2.value)
      case None => None
      case Some(v) => Some([(e.expr.value.name, v)])
    else None
  }

  /** Each column mapped to the value of its first equality in the list. */
  ghost function FirstWins(ps: seq<(Identifier, Value)>): ValueDict
  {
    if |ps| == 0 then map[] else FirstWins(ps[1..])[ps[0].0 := ps[0].1]
  }

  /** FirstWins holds exactly the listed columns, each with its earliest value. */
  lemma {:induction false} FirstWinsSpec(ps: seq<(Identifier, Value)>)
    ensures forall c :: c in FirstWins(ps) <==> exists i | 0 <= i < |ps| :: ps[i].0 == c
    ensures forall i | 0 <= i < |ps| && (forall j | 0 <= j < i :: ps[j].0 != ps[i].0) ::
      FirstWins(ps)[ps[i].0] == ps[i].1
  {
    if |ps| > 0 {
      var tail := ps[1..];
      FirstWinsSpec(tail);
      forall c | c in FirstWins(ps) ensures exists i | 0 <= i < |ps| :: ps[i].0 == c {
        if c != ps[0].0 {
          assert c in FirstWins(tail);
          var i :| 0 <= i < |tail| && tail[i].0 == c;
          assert ps[i + 1].0 == c;
        }
      }
      forall c | exists i | 0 <= i < |ps| :: ps[i].0 == c ensures c in FirstWins(ps) {
        var i :| 0 <= i < |ps| && ps[i].0 == c;
        if i > 0 {
          assert tail[i - 1].0 == c;
        }
      }
      forall i | 0 <= i < |ps| && (forall j | 0 <= j < i :: ps[j].0 != ps[i].0)
        ensures FirstWins(ps)[ps[i].0] == ps[i].1
      {
        if i > 0 {
          assert ps[0].0 != ps[i].0;
          assert tail[i - 1] == ps[i];
          forall j | 0 <= j < i - 1 ensures tail[j].0 != tail[i - 1].0 {
            assert tail[j] == ps[j + 1];
          }
        }
      }
    }
  }

  /** The earliest-equality dictionary of a concatenation: the first list wins. */
  lemma {:induction false} FirstWinsAppend(a: seq<(Identifier, Value)>, b: seq<(Identifier, Value)>)
    ensures FirstWins(a + b) == InsertBoth(FirstWins(a), FirstWins(b))
  {
    if |a| == 0 {
      assert a + b == b;
    } else {
      assert (a + b)[1..] == a[1..] + b;
      FirstWinsAppend(a[1..], b);
    }
  }

  /**
   * get_where_conjunction succeeds exactly when the tree is an AND of
   * `column = literal` terms, and then maps each column to the literal of
   * its leftmost term.
   */
  lemma {:induction false} WhereConjunctionIsFirstWins(e: Expr)
    requires WellFormed(e)
    ensures GetWhereConjunction(e).Success? <==> Equalities(e).Some?
    ensures GetWhereConjunction(e).Success? ==> GetWhereConjunction(e).value == FirstWins(Equalities(e).value)
    decreases e
  {
    if e.exprType == Operator && e.opType == And {
      WhereConjunctionIsFirstWins(e.expr.value);
      WhereConjunctionIsFirstWins(e.expr2.value);
      if Equalities(e).Some? {
        FirstWinsAppend(Equalities(e.expr.value).value, Equalities(e.expr2.value).value);
      }
    } else if e.exprType == Operator && e.opType == SimpleOp && LiteralValue(e.expr2.value).Some? {
      var p := (e.expr.value.name, LiteralValue(e.expr2.value).value);
      assert [p][1..] == [];
    }
  }

  // ---------------------------------------------------------------------
  // column_definition

  /** The parser's column types (ColumnDefinition::DataType). */
  datatype ColumnType = UnknownType | TextType | IntType | DoubleType

  /** A column of CREATE TABLE: its name and declared type. */
  datatype ColumnDefinition = ColumnDefinition(name: Identifier, colType: ColumnType)

  /**
   * column_definition (SQLExec.cpp:277-291): the column's name and an
   * attribute of the matching type; DOUBLE and any other type raise
   * SQLExecError.
   */
  function ColumnDefinitionOf(col: ColumnDefinition): (r: Result<(Identifier, ColumnAttribute)>)
    ensures r.Success? <==> col.colType == IntType || col.colType == TextType
    ensures r.Failure? ==> r.error == SQLExecError("unrecognized data type")
    ensures r.Success? ==> r.value.0 == col.name
    ensures r.Success? ==> (r.value.1.dataType == INT <==> col.colType == IntType)
    ensures r.Success? ==> (r.value.1.dataType == TEXT <==> col.colType == TextType)
  {
    match col.colType
    case IntType => Success((col.name, ColumnAttribute(INT)))
    case TextType => Success((col.name, ColumnAttribute(TEXT)))
    case _ => Failure(SQLExecError("unrecognized data type"))
  }

  /** The column type a CREATE TABLE declares for an attribute type. */
  function DeclaredType(t: DataType): ColumnType
  {
    match t
    case INT => IntType
    case TEXT => TextType
    case BOOLEAN => UnknownType
  }

  /** Every INT or TEXT attribute comes back from the column type declaring it. */
  lemma ColumnDefinitionRoundTrip(name: Identifier, a: ColumnAttribute)
    requires a.dataType == INT || a.dataType == TEXT
    ensures ColumnDefinitionOf(ColumnDefinition(name, DeclaredType(a.dataType))) == Success((name, a))
  {
  }

  // ---------------------------------------------------------------------
  // insert: eligibility and binding

  /**
   * INSERT may run when it gives one value per table column, the table has
   * columns, and every column the statement names is a table column.
   */
  predicate Eligible(valueCount: nat, columns: Option<seq<Identifier>>, columnNames: seq<Identifier>)
  {
    && valueCount == |columnNames|
    && |columnNames| != 0
    && (columns.Some? ==> forall c | c in columns.value :: c in columnNames)
  }

  /** Every one of the first n values is a string or int literal. */
  predicate LiteralsUpTo(values: seq<Expr>, n: nat)
    requires n <= |values|
  {
    forall i | 0 <= i < n :: LiteralValue(values[i]).Some?
  }

  /** The row binding the i-th literal to the i-th table column, for i below n, in that order. */
  ghost function Bound(columnNames: seq<Identifier>, values: seq<Expr>, n: nat): ValueDict
    requires n <= |columnNames| && n <= |values| && LiteralsUpTo(values, n)
  {
    if n == 0 then map[]
    else Bound(columnNames, values, n - 1)[columnNames[n - 1] := LiteralValue(values[n - 1]).value]
  }

  /** The bound row has exactly the first n table columns. */
  lemma {:induction false} BoundKeys(columnNames: seq<Identifier>, values: seq<Expr>, n: nat)
    requires n <= |columnNames| && n <= |values| && LiteralsUpTo(values, n)
    ensures Bound(columnNames, values, n).Keys == set i | 0 <= i < n :: columnNames[i]
  {
    if n > 0 {
      BoundKeys(columnNames, values, n - 1);
      var before := set i | 0 <= i < n - 1 :: columnNames[i];
      assert (set i | 0 <= i < n :: columnNames[i]) == before + {columnNames[n - 1]};
    }
  }

  /** With distinct column names, the i-th table column holds the i-th literal. */
  lemma {:induction false} BoundValues(columnNames: seq<Identifier>, values: seq<Expr>, n: nat)
    requires n <= |columnNames| && n <= |values| && LiteralsUpTo(values, n)
    requires forall i, j | 0 <= i < j < n :: columnNames[i] != columnNames[j]
    ensures forall i | 0 <= i < n :: columnNames[i] in Bound(columnNames, values, n)
    ensures forall i | 0 <= i < n :: Bound(columnNames, values, n)[columnNames[i]] == LiteralValue(values[i]).value
  {
    if n > 0 {
      BoundValues(columnNames, values, n - 1);
    }
  }

  const NotEligible := DbRelationError("don't know how to handle NULLs, defaults, etc. yet")
  const UnrecognizedColumnType := SQLExecError("Unrecognized column type")

  /**
   * The row-building part of insert (SQLExec.cpp:121-151): an ineligible
   * statement raises DbRelationError; otherwise the i-th value is bound to
   * the i-th table column, whatever column list the statement gave, and a
   * value that is no string or int literal raises SQLExecError.
   */
  method BuildInsertRow(values: seq<Expr>, columns: Option<seq<Identifier>>, columnNames: seq<Identifier>)
    returns (r: Result<ValueDict>)
    ensures r == Failure(NotEligible) <==> !Eligible(|values|, columns, columnNames)
    ensures Eligible(|values|, columns, columnNames) && !LiteralsUpTo(values, |values|) ==>
      r == Failure(UnrecognizedColumnType)
    ensures Eligible(|values|, columns, columnNames) && LiteralsUpTo(values, |values|) ==>
      r == Success(Bound(columnNames, values, |values|))
  {
    var eligible := true;
    if |values| != |columnNames| || |columnNames| == 0 {
      eligible := false;
    }
    if columns.Some? {
      var cols := columns.value;
      for i := 0 to |cols|
        invariant eligible <==> |values| == |columnNames| && |columnNames| != 0 && forall j | 0 <= j < i :: cols[j] in columnNames
      {
        if cols[i] !in columnNames {
          eligible := false;
        }
      }
    }
    if !eligible {
      return Failure(NotEligible);
    }
    var row: ValueDict := map[];
    for i := 0 to |values|
      invariant LiteralsUpTo(values, i)
      invariant row == Bound(columnNames, values, i)
    {
      var columnName := columnNames[i];
      match LiteralValue(values[i])
      case None =>
        return Failure(UnrecognizedColumnType);
      case Some(v) =>
        row := row[columnName := v];
    }
    r := Success(row);
  }

  // ---------------------------------------------------------------------
  // drop_table's guard

  /** The names of the schema tables (Tables::TABLE_NAME and Columns::TABLE_NAME). */
  const TablesTableName := "_tables"
  const ColumnsTableName := "_columns"

  /** drop_table's first check (SQLExec.cpp:439-441): the schema tables cannot be dropped. */
  function DropTableGuard(tableName: Identifier): (r: Outcome)
    ensures r.Fail? <==> tableName == TablesTableName || tableName == ColumnsTableName
    ensures r.Fail? ==> r.error == SQLExecError("cannot drop a schema table")
  {
    if tableName == TablesTableName || tableName == ColumnsTableName then
      Fail(SQLExecError("cannot drop a schema table"))
    else Pass
  }

  // ---------------------------------------------------------------------
  // create_index: the catalog rows

  /** The columns of an `_indices` row. */
  const IndexRowColumns: set<Identifier> :=
    {"is_unique", "table_name", "index_name", "index_type", "column_name", "seq_in_index"}

  /**
   * The catalog part of create_index (SQLExec.cpp:382-413): every index
   * column must be a table column, else SQLExecError names the first one that
   * is not; otherwise one `_indices` row per index column, in order, with
   * is_unique true exactly for a BTREE index and seq_in_index counting 1 to n.
   */
  method CreateIndexRows(tableName: Identifier, indexName: Identifier, indexType: Identifier,
                         indexColumns: seq<Identifier>, columnNames: seq<Identifier>)
    returns (r: Result<seq<ValueDict>>)
    requires |indexColumns| < 0x8000_0000
    ensures r.Failure? <==> exists i | 0 <= i < |indexColumns| :: indexColumns[i] !in columnNames
    ensures r.Failure? ==> exists i | 0 <= i < |indexColumns| ::
      && indexColumns[i] !in columnNames
      && (forall j | 0 <= j < i :: indexColumns[j] in columnNames)
      && r.error == SQLExecError("COLUMN NAME " + indexColumns[i] + " IS NOT IN TABLE " + tableName)
    ensures r.Success? ==> |r.value| == |indexColumns|
    ensures r.Success? ==> forall i | 0 <= i < |indexColumns| ::
      && r.value[i].Keys == IndexRowColumns
      && r.value[i]["is_unique"] == BoolValue(indexType == "BTREE")
      && r.value[i]["table_name"] == TextValue(tableName)
      && r.value[i]["index_name"] == TextValue(indexName)
      && r.value[i]["index_type"] == TextValue(indexType)
      && r.value[i]["column_name"] == TextValue(indexColumns[i])
      && r.value[i]["seq_in_index"] == IntValue((i + 1) as int32)
  {
    var row: ValueDict := map[];
    if indexType == "BTREE" {
      row := row["is_unique" := BoolValue(true)];
    } else {
      row := row["is_unique" := BoolValue(false)];
    }

    for i := 0 to |indexColumns|
      invariant forall j | 0 <= j < i :: indexColumns[j] in columnNames
    {
      var col := indexColumns[i];
      var check := false;
      for k := 0 to |columnNames|
        invariant check <==> col in columnNames[..k]
      {
        if columnNames[k] == col {
          check := true;
        }
      }
      assert columnNames[..|columnNames|] == columnNames;
      if !check {
        return Failure(SQLExecError("COLUMN NAME " + col + " IS NOT IN TABLE " + tableName));
      }
    }

    row := row["table_name" := TextValue(tableName)];
    row := row["index_name" := TextValue(indexName)];
    row := row["index_type" := TextValue(indexType)];

    var rows: seq<ValueDict> := [];
    var seqCount: int32 := 0;
    for i := 0 to |indexColumns|
      invariant seqCount as int == i
      invariant |rows| == i
      invariant i == 0 ==> row.Keys == IndexRowColumns - {"column_name", "seq_in_index"}
      invariant i > 0 ==> row.Keys == IndexRowColumns
      invariant row["is_unique"] == BoolValue(indexType == "BTREE")
      invariant row["table_name"] == TextValue(tableName)
      invariant row["index_name"] == TextValue(indexName)
      invariant row["index_type"] == TextValue(indexType)
      invariant forall j | 0 <= j < i ::
        && rows[j].Keys == IndexRowColumns
        && rows[j]["is_unique"] == BoolValue(indexType == "BTREE")
        && rows[j]["table_name"] == TextValue(tableName)
        && rows[j]["index_name"] == TextValue(indexName)
        && rows[j]["index_type"] == TextValue(indexType)
        && rows[j]["column_name"] == TextValue(indexColumns[j])
        && rows[j]["seq_in_index"] == IntValue((j + 1) as int32)
    {
      row := row["column_name" := TextValue(indexColumns[i])];
      seqCount := seqCount + 1;
      row := row["seq_in_index" := IntValue(seqCount)];
      rows := rows + [row];
    }
    r := Success(rows);
  }
}

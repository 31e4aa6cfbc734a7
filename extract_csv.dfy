/**
 * Loading a CSV file into a table (Scripts/extract_csv.py): the header row becomes a
 * `CREATE TABLE IF NOT EXISTS` with one `TEXT` column per header, every further row one
 * parameterised `INSERT`, and the connection commits only when all of them succeeded.
 */
module ExtractCsv {
  import opened PyStr
  import opened Database

  /** `[f'{header} TEXT' for header in headers]`. */
  function ColumnDefinitions(headers: seq<string>): (defs: seq<string>)
    ensures |defs| == |headers|
  {
    seq(|headers|, i requires 0 <= i < |headers| => headers[i] + " TEXT")
  }

  /** The column list of the CREATE statement. */
  function ColumnList(headers: seq<string>): string {
    Join(", ", ColumnDefinitions(headers))
  }

  /** The statement `write_to_postgres` sends first. */
  function CreateTableSql(tableName: string, headers: seq<string>): string {
    "CREATE TABLE IF NOT EXISTS " + tableName + " (" + ColumnList(headers) + ")"
  }

  /** `', '.join(['%s'] * n)`. */
  function Placeholders(n: nat): string {
    Join(", ", seq(n, _ => "%s"))
  }

  /** The statement sent for one data row, with the row's fields as its parameters. */
  function InsertSql(tableName: string, row: seq<string>): string {
    "INSERT INTO " + tableName + " VALUES (" + Placeholders(|row|) + ")"
  }

  /**
   * One more header adds its column at the end of the column list, after `", "` unless it
   * is the first: the columns are the headers in order, each typed `TEXT`.
   */
  lemma ColumnListSnoc(headers: seq<string>, h: string)
    ensures ColumnList(headers + [h]) ==
      if headers == [] then h + " TEXT" else ColumnList(headers) + ", " + h + " TEXT"
  {
    assert ColumnDefinitions(headers + [h]) == ColumnDefinitions(headers) + [h + " TEXT"];
    if headers != [] {
      JoinSnoc(", ", ColumnDefinitions(headers), h + " TEXT");
    }
  }

  /**
   * When no header holds a comma, the column list holds one comma fewer than there are
   * headers: the table gets exactly one column per header.
   */
  lemma {:induction false} ColumnCount(headers: seq<string>)
    requires headers != []
    requires forall i :: 0 <= i < |headers| ==> ',' !in headers[i]
    ensures CountOf(',', ColumnList(headers)) == |headers| - 1
    decreases |headers|
  {
    var init, h := headers[..|headers| - 1], headers[|headers| - 1];
    assert headers == init + [h];
    ColumnListSnoc(init, h);
    CountOfAbsent(',', h);
    CountOfAbsent(',', " TEXT");
    CountOfConcat(',', h, " TEXT");
    if init != [] {
      ColumnCount(init);
      CountOfConcat(',', ColumnList(init), ", ");
      CountOfConcat(',', ColumnList(init) + ", ", h);
      CountOfConcat(',', ColumnList(init) + ", " + h, " TEXT");
      assert CountOf(',', ", ") == 1;
    }
  }

  /**
   * The pieces of the column list between its commas: the first header's definition, then
   * each later definition after the space that follows its comma.
   */
  function ColumnPieces(headers: seq<string>): (pieces: seq<string>)
    requires headers != []
    ensures |pieces| == |headers|
  {
    [headers[0] + " TEXT"]
    + seq(|headers| - 1, i requires 0 <= i < |headers| - 1 => " " + headers[i + 1] + " TEXT")
  }

  /**
   * When no header holds a comma, cutting the column list at its commas gives back every
   * header, in order, as `<header> TEXT`: the CREATE statement defines exactly those columns.
   */
  lemma {:induction false} ColumnsReadBack(headers: seq<string>)
    requires headers != []
    requires forall i :: 0 <= i < |headers| ==> ',' !in headers[i]
    ensures Split(ColumnList(headers), ',') == ColumnPieces(headers)
    decreases |headers|
  {
    var init, h := headers[..|headers| - 1], headers[|headers| - 1];
    assert headers == init + [h];
    ColumnListSnoc(init, h);
    if init == [] {
      SplitWithoutSeparator(h + " TEXT", ',');
    } else {
      ColumnsReadBack(init);
      var last := " " + h + " TEXT";
      LastColumnPiece(init, h);
      SplitBeforePiece(ColumnList(init), ',', last);
    }
  }

  /** One more header after the first: a comma, then its definition as the last piece. */
  lemma LastColumnPiece(init: seq<string>, h: string)
    requires init != [] && ',' !in h
    ensures ',' !in " " + h + " TEXT"
    ensures ColumnList(init + [h]) == ColumnList(init) + [','] + (" " + h + " TEXT")
    ensures ColumnPieces(init + [h]) == ColumnPieces(init) + [" " + h + " TEXT"]
  {
    ColumnListSnoc(init, h);
    assert ColumnList(init) + ", " + h + " TEXT" == ColumnList(init) + [','] + (" " + h + " TEXT");
  }

  /** One more placeholder adds `", %s"` at the end, or is the whole list when it is the first. */
  lemma PlaceholdersSnoc(n: nat)
    ensures Placeholders(n + 1) == if n == 0 then "%s" else Placeholders(n) + ", %s"
  {
    assert seq(n + 1, _ => "%s") == seq(n, _ => "%s") + ["%s"];
    if n > 0 {
      JoinSnoc(", ", seq(n, _ => "%s"), "%s");
    }
  }

  /**
   * The placeholder list of a row holds exactly one `%` per field of the row: as many
   * parameters as psycopg2 is given. It is empty exactly when the row is.
   */
  lemma {:induction false} PlaceholderCount(n: nat)
    ensures CountOf('%', Placeholders(n)) == n
    ensures Placeholders(n) == [] <==> n == 0
  {
    if n > 0 {
      PlaceholdersSnoc(n - 1);
      PlaceholderCount(n - 1);
      if n > 1 {
        CountOfConcat('%', Placeholders(n - 1), ", %s");
        assert CountOf('%', ", %s") == 1;
      } else {
        assert CountOf('%', "%s") == 1;
      }
    }
  }

  /**
   * Each INSERT statement expects exactly as many parameters as the row it is sent with,
   * provided the table name holds no `%`.
   */
  lemma InsertPlaceholdersMatchRow(tableName: string, row: seq<string>)
    requires '%' !in tableName
    ensures CountOf('%', InsertSql(tableName, row)) == |row|
  {
    var pre := "INSERT INTO " + tableName + " VALUES (";
    assert '%' !in pre;
    PlaceholderCount(|row|);
    CountOfInside('%', pre, Placeholders(|row|), ")");
    assert InsertSql(tableName, row) == pre + Placeholders(|row|) + ")";
  }

  /**
   * The statements `write_to_postgres` sends for `data`, in order: the CREATE built from the
   * header row `data[0]`, then one INSERT for each later row, with that row as parameters.
   * The header row is never inserted; with no row at all nothing is sent.
   */
  function LoadPlan(tableName: string, data: seq<seq<string>>): (plan: seq<Query>)
    ensures |plan| == |data|
    ensures data != [] ==> plan[0] == Plain(CreateTableSql(tableName, data[0]))
    ensures forall j :: 1 <= j < |data| ==> plan[j] == WithParams(InsertSql(tableName, data[j]), data[j])
  {
    if data == [] then []
    else
      [Plain(CreateTableSql(tableName, data[0]))]
      + seq(|data| - 1, i requires 0 <= i < |data| - 1 => WithParams(InsertSql(tableName, data[i + 1]), data[i + 1]))
  }

  /**
   * `write_to_postgres`: the CREATE, then the INSERTs, each sent only while everything so
   * far succeeded; the first failure ends the attempt without a commit, as does an empty
   * `data` (no statement at all); the one commit follows the last successful INSERT.
   */
  method WriteToPostgres(conn: Connection, data: seq<seq<string>>, tableName: string)
    returns (committed: bool)
    modifies conn
    ensures var ev := RunUntilFailure(conn.rejects, old(conn.log), LoadPlan(tableName, data));
      && committed == (data != [] && AllSucceeded(ev))
      && conn.log == old(conn.log) + ev + (if committed then [Committed] else [])
  {
    ghost var h0 := conn.log;
    ghost var plan := LoadPlan(tableName, data);
    ghost var run := RunUntilFailure(conn.rejects, h0, plan);
    if |data| == 0 {
      // `data[0]` raises before any statement is sent.
      return false;
    }
    var headers := data[0];
    assert h0 == h0 + run[..0];
    var ok := conn.Execute(Plain(CreateTableSql(tableName, headers)));
    RunUntilFailureStep(conn.rejects, h0, plan, 0, h0, ok);
    if !ok {
      return false;
    }
    // `for row in data[1:]`, walking the indices of `data` itself.
    var j := 1;
    while j < |data|
      invariant 1 <= j <= |data|
      invariant SucceededUpTo(run, j)
      invariant conn.log == h0 + run[..j]
    {
      ghost var before := conn.log;
      ok := conn.Execute(WithParams(InsertSql(tableName, data[j]), data[j]));
      RunUntilFailureStep(conn.rejects, h0, plan, j, before, ok);
      if !ok {
        return false;
      }
      j := j + 1;
    }
    assert run[..j] == run;
    conn.Commit();
    committed := true;
  }

  /**
   * A load that commits has sent every statement of its plan, in order, and every one of
   * them succeeded: the commit never follows a failed INSERT.
   */
  lemma CommitMeansEveryStatementSucceeded(
    rejects: (seq<Event>, Query) -> bool, history: seq<Event>, tableName: string, data: seq<seq<string>>)
    requires AllSucceeded(RunUntilFailure(rejects, history, LoadPlan(tableName, data)))
    ensures var plan := LoadPlan(tableName, data);
      var ev := RunUntilFailure(rejects, history, plan);
      && ev == RunAll(rejects, history, plan)
      && |ev| == |data|
      && forall j :: 0 <= j < |ev| ==> ev[j].query == plan[j] && ev[j].ok
  {
    RunUntilFailureSucceeded(rejects, history, LoadPlan(tableName, data));
  }

  /** The file name `extract_csv` downloads to and loads. */
  function CsvFileName(): string {
    "order_details.csv"
  }

  /** `file_name.replace('.csv', '')`. */
  function TableName(fileName: string): string {
    Replace(fileName, ".csv", "")
  }

  /**
   * Removing `.csv` works piece by piece around an occurrence: no occurrence can straddle
   * the one in the middle, because no proper suffix of `.csv` is a prefix of it.
   */
  lemma {:induction false} TableNameAround(a: string, b: string)
    ensures TableName(a + ".csv" + b) == TableName(a) + TableName(b)
    decreases |a|
  {
    var s := a + ".csv" + b;
    if a == [] {
      assert s == ".csv" + b && s[4..] == b;
      assert TableName([]) == [];
    } else if StartsWith(a, ".csv") {
      DropFromFirst(a, ".csv", b, 4);
      TableNameAround(a[4..], b);
    } else {
      assert s[|a|] == '.';
      assert !StartsWith(s, ".csv") by {
        if |a| >= 4 {
          DropFromFirst(a, ".csv", b, 4);
        }
      }
      DropFromFirst(a, ".csv", b, 1);
      TableNameAround(a[1..], b);
    }
  }

  /** A file name without `.csv` is its own table name. */
  lemma TableNameWithoutExtension(fileName: string)
    requires !Contains(fileName, ".csv")
    ensures TableName(fileName) == fileName
  {
    ReplaceAbsent(fileName, ".csv", "");
  }

  /** A name without `.csv`, followed by `.csv`, loses exactly the extension. */
  lemma TableNameDropsExtension(name: string)
    requires !Contains(name, ".csv")
    ensures TableName(name + ".csv") == name
  {
    TableNameWithoutExtension(name);
    TableNameAround(name, []);
    assert name + ".csv" + [] == name + ".csv";
    assert TableName([]) == [];
  }

  /** `order_details.csv` is loaded into the table `order_details`. */
  lemma OrderDetailsTable()
    ensures TableName(CsvFileName()) == "order_details"
  {
    var name := "order_details";
    assert TableName(name + ".csv") == name by {
      NotContainsFirst(name, ".csv");
      TableNameDropsExtension(name);
    }
    assert name + ".csv" == CsvFileName();
  }

  /** `local_path`: the directory of the day's CSV snapshot. */
  function LocalPath(executionDate: string): string {
    "data/csv/" + executionDate
  }

  /** Different execution dates give different snapshot directories. */
  lemma LocalPathsDistinct(d1: string, d2: string)
    requires d1 != d2
    ensures LocalPath(d1) != LocalPath(d2)
  {
    assert LocalPath(d1)[9..] == d1 && LocalPath(d2)[9..] == d2;
  }

  /**
   * `extract_csv` once the file is parsed: the day's snapshot directory, and the rows loaded
   * into the table named after the file.
   */
  method ExtractCsv(conn: Connection, executionDate: string, csvData: seq<seq<string>>)
    returns (localPath: string, committed: bool)
    modifies conn
    ensures localPath == LocalPath(executionDate)
    ensures var ev := RunUntilFailure(conn.rejects, old(conn.log), LoadPlan("order_details", csvData));
      && committed == (csvData != [] && AllSucceeded(ev))
      && conn.log == old(conn.log) + ev + (if committed then [Committed] else [])
  {
    localPath := LocalPath(executionDate);
    var fileName := CsvFileName();
    var tableName := TableName(fileName);
    OrderDetailsTable();
    committed := WriteToPostgres(conn, csvData, tableName);
  }
}

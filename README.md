# Northwind extraction scripts: statement cleaning, splitting and loading

A Dafny model of the two pieces of logic in the code-challenge extraction scripts that do
more than call libraries.

- **`Scripts/extract_postgres.py`** loads a PostgreSQL dump script.
  - `clean_sql_commands` drops blank lines and dump metadata lines (`Type:`, `Schema:`,
    `Owner:`, `--`). It keeps every other line unchanged.
  - `execute_sql_file` then cuts the text at every `;`, strips the pieces and discards empty
    ones.
  - It sends each statement once, in order, carrying on past failures. It reports each
    failure by the statement's first 50 characters.
  - It commits once at the end. With no statement left, it sends nothing and commits nothing.
- **`Scripts/extract_csv.py`** loads a CSV file into a table.
  - `write_to_postgres` sends a `CREATE TABLE IF NOT EXISTS` with one `TEXT` column per
    header.
  - It then sends one parameterised `INSERT` per data row. The `INSERT` has one `%s` per field.
  - The first failure ends the load without a commit. An empty `data` fails at `data[0]`
    before anything is sent.
  - `extract_csv` names the table after the file, `order_details`, and keeps its snapshot
    under `data/csv/<date>`.

The model is in five modules.

- **`PyStr`** (`pystr.dfy`) holds the Python `str` built-ins the scripts rely on, with
  Python's exact semantics, and two specification helpers, `CountOf` and `Contains`:
  - `strip` uses the `isspace` character set.
  - `split` on one character always yields at least one piece.
  - `join` and `startswith`.
  - `replace` works left to right on non-overlapping occurrences.
- **`Lists`** (`lists.dfy`) holds list filtering, as an `if` comprehension or an appending loop
  does it.
- **`Database`** (`database.dfy`) is the session the scripts drive through psycopg2.
  - `Connection` is a class whose mutable field `log` records every statement sent, with whether
    it failed, and every commit.
  - An oracle `rejects(history, query)` decides which statements fail. It sees the whole history,
    so any server behaviour fits, autocommit and aborted transactions included.
  - Two reference functions give what a loop sends:
    - `RunAll` carries on past failures.
    - `RunUntilFailure` stops at the first failure, as an exception does.
- **`ExtractPostgres`** (`extract_postgres.dfy`) models the cleaner, the splitter and the
  statement loop.
- **`ExtractCsv`** (`extract_csv.dfy`) models the statement texts, the load loop, the table
  name and the snapshot path.

The loops are imperative methods on a `Connection`. Each is proved against the reference
function of what it sends.

The only report in the code is its printed lines. `execute_sql_file` prints a message and
returns when no statement is left; it raises no exception of its own. The model follows the
code:

- `ExecuteSqlFile` returns `NoValidCommands`, or `Completed` with the previews of the failed
  statements in order.
- It computes no attempted, succeeded or failed counts. The code does not compute them.

## Model

| member | source | states |
|---|---|---|
| PyStr.IsSpace | my_code-challenge/Scripts/extract_postgres.py:24 | the characters `strip()` removes, Python's `str.isspace` set: tab through carriage return, U+001C to U+001F, space, U+0085, U+00A0, U+1680, U+2000 to U+200A, U+2028, U+2029, U+202F, U+205F and U+3000 |
| PyStr.TrimLeft | my_code-challenge/Scripts/extract_postgres.py:24 | `lstrip()`: drops characters from the front while they are Python whitespace; never longer than its argument |
| PyStr.TrimLeftIsSuffix | my_code-challenge/Scripts/extract_postgres.py:24 | the left half of `strip()` keeps a suffix that does not start with whitespace, and removes only whitespace |
| PyStr.TrimRight | my_code-challenge/Scripts/extract_postgres.py:24 | `rstrip()`: drops characters from the back while they are Python whitespace; never longer than its argument |
| PyStr.TrimRightIsPrefix | my_code-challenge/Scripts/extract_postgres.py:24 | the right half of `strip()` keeps a prefix that does not end with whitespace, and removes only whitespace |
| PyStr.Strip | my_code-challenge/Scripts/extract_postgres.py:24 | `strip()`: `rstrip()` of `lstrip()`, whitespace removed at both ends |
| PyStr.StripIsInnerSlice | my_code-challenge/Scripts/extract_postgres.py:24 | `line.strip()` is a slice of the line that neither starts nor ends with whitespace in Python's sense |
| PyStr.StripRemovesOnlySpace | my_code-challenge/Scripts/extract_postgres.py:24 | everything `strip()` removes before and after the slice it keeps is whitespace |
| PyStr.StartsWith | my_code-challenge/Scripts/extract_postgres.py:24 | `s.startswith(p)` for one prefix: `p` is no longer than `s` and equals its first `|p|` characters |
| PyStr.StartsWithAny | my_code-challenge/Scripts/extract_postgres.py:24 | `s.startswith(prefixes)` on a tuple: the first prefix matches or the rest does |
| PyStr.StartsWithAnyIff | my_code-challenge/Scripts/extract_postgres.py:24 | `s.startswith(prefixes)` holds exactly when some listed prefix is a prefix of `s` |
| PyStr.StripIdempotent | my_code-challenge/Scripts/extract_postgres.py:39 | stripping a stripped string changes nothing, so every command equals its own strip |
| PyStr.Join | my_code-challenge/Scripts/extract_postgres.py:27 | `sep.join(parts)`: the parts in order with `sep` between neighbours, the empty string for no parts |
| PyStr.Split | my_code-challenge/Scripts/extract_postgres.py:20 | `split` on one character yields at least one piece, and no piece holds the separator |
| PyStr.JoinSplit | my_code-challenge/Scripts/extract_postgres.py:20 | joining the pieces of a split with the separator gives back the original text |
| PyStr.SplitBeforePiece | my_code-challenge/Scripts/extract_postgres.py:39 | splitting `a`, the separator and a separator-free `b` gives the pieces of `a` followed by `b`; it gives the empty last fragment after a final `;` in CommandsIgnoreFinalSemicolon and the last column in ColumnsReadBack |
| PyStr.SplitJoin | my_code-challenge/Scripts/extract_postgres.py:27 | splitting a join of separator-free parts gives back the parts |
| PyStr.Replace | my_code-challenge/Scripts/extract_csv.py:69 | `s.replace(pat, rep)`: scanning left to right, each occurrence of `pat` is replaced and scanning resumes after it, so occurrences do not overlap |
| ExtractPostgres.MetadataPrefixes | my_code-challenge/Scripts/extract_postgres.py:24 | the tuple of metadata prefixes `Type:`, `Schema:`, `Owner:`, `--`, in that order |
| ExtractPostgres.IsKeptLine | my_code-challenge/Scripts/extract_postgres.py:24-26 | a line is kept exactly when its strip is non-empty and starts with none of `Type:`, `Schema:`, `Owner:`, `--` |
| ExtractPostgres.Clean | my_code-challenge/Scripts/extract_postgres.py:18-27 | the kept lines of the newline-split text, unchanged and in order, joined with newlines |
| ExtractPostgres.CleanSqlCommands | my_code-challenge/Scripts/extract_postgres.py:18-27 | the line-by-line appending loop returns exactly the kept lines, in order, joined with newlines |
| ExtractPostgres.CleanStep | my_code-challenge/Scripts/extract_postgres.py:22-26 | one turn of the loop appends the line exactly when it is kept, so the appended lines are always the kept lines of the lines seen so far |
| ExtractPostgres.KeptLinesAreTheCleanLines | my_code-challenge/Scripts/extract_postgres.py:22-26 | for any list of lines, the kept lines are the lines at the kept positions, unchanged and in their original order; a line is dropped exactly when its strip is empty or starts with `Type:`, `Schema:`, `Owner:` or `--` |
| ExtractPostgres.CleanedLines | my_code-challenge/Scripts/extract_postgres.py:20-27 | re-splitting the cleaned script at newlines gives back exactly the kept lines; with no kept line the cleaned script is empty |
| ExtractPostgres.CleanIdempotent | my_code-challenge/Scripts/extract_postgres.py:18-27 | cleaning a cleaned script changes nothing |
| ExtractPostgres.StripAll | my_code-challenge/Scripts/extract_postgres.py:39 | the strip of each fragment, position by position |
| ExtractPostgres.Commands | my_code-challenge/Scripts/extract_postgres.py:39 | the non-empty strips of the `;`-fragments, in fragment order |
| ExtractPostgres.CommandsFromFragments | my_code-challenge/Scripts/extract_postgres.py:39 | the commands are the non-empty stripped `;`-fragments in fragment order; a fragment yields a command exactly when its strip is non-empty |
| ExtractPostgres.CommandsAreTrimmed | my_code-challenge/Scripts/extract_postgres.py:39 | every command is non-empty, its own strip and free of `;` |
| ExtractPostgres.CommandsOfTrimmedPieces | my_code-challenge/Scripts/extract_postgres.py:39 | fragments that are all non-empty and already stripped are the commands, unchanged |
| ExtractPostgres.StripAllSnoc | my_code-challenge/Scripts/extract_postgres.py:39 | stripping one more fragment adds its strip at the end |
| ExtractPostgres.CommandsIgnoreFinalSemicolon | my_code-challenge/Scripts/extract_postgres.py:39 | for every script `s`, `s + ";"` gives the same commands as `s`: the empty fragment after a final `;` yields nothing |
| ExtractPostgres.CommandsOfStrippedFragments | my_code-challenge/Scripts/extract_postgres.py:39 | fragments whose strips are all non-empty give exactly those strips as commands |
| ExtractPostgres.StatementLineKept | my_code-challenge/Scripts/extract_postgres.py:24 | a trimmed line that starts with none of `T`, `S`, `O`, `-` is kept |
| ExtractPostgres.MetadataLineDropped | my_code-challenge/Scripts/extract_postgres.py:24 | a trimmed line that starts with `Type:`, `Schema:`, `Owner:` or `--` is dropped |
| ExtractPostgres.CleanFourLines | my_code-challenge/Scripts/extract_postgres.py:18-27 | of four newline-free lines, the first two dropped and the last two kept, cleaning returns exactly the last two joined by a newline |
| ExtractPostgres.CommandsOfThree | my_code-challenge/Scripts/extract_postgres.py:39 | three trimmed `;`-free statements, the second after a newline, each ended by `;`, give exactly those three commands |
| ExtractPostgres.CommandsOfTwo | my_code-challenge/Scripts/extract_postgres.py:39 | two trimmed `;`-free statements joined by `;` split back into those two commands |
| ExtractPostgres.NaiveSplitInsideLiteral | my_code-challenge/Scripts/extract_postgres.py:39 | a `;` inside a quoted literal still splits: `INSERT INTO t VALUES ('a;b')` gives `INSERT INTO t VALUES ('a` and `b')` |
| ExtractPostgres.OwnerCommentTwoStatements | my_code-challenge/Scripts/extract_postgres.py:20-39 | an owner line, a comment line and two statement lines, the second holding an extra `;`, give exactly the three commands |
| ExtractPostgres.ExampleScript | my_code-challenge/Scripts/extract_postgres.py:20-39 | a concrete dump script with an `Owner:` line, a `--` comment, a CREATE and an INSERT whose literal holds `;` gives three commands |
| ExtractPostgres.EmptyScriptHasNoCommands | my_code-challenge/Scripts/extract_postgres.py:36-43 | an empty script yields no command |
| ExtractPostgres.Preview | my_code-challenge/Scripts/extract_postgres.py:49 | `command[:50]` is a prefix of the command, as long as the command or 50 characters, whichever is shorter |
| ExtractPostgres.Failed | my_code-challenge/Scripts/extract_postgres.py:46-49 | an execution whose `cursor.execute` raised, so the `except` prints an error line for it |
| ExtractPostgres.FailureReport | my_code-challenge/Scripts/extract_postgres.py:45-49 | the `command[:50]` previews of the failed executions, in the order they ran |
| ExtractPostgres.NothingFailedNothingReported | my_code-challenge/Scripts/extract_postgres.py:45-49 | a run in which every statement succeeded reports no failure |
| ExtractPostgres.NothingReportedIffNothingFailed | my_code-challenge/Scripts/extract_postgres.py:45-49 | the report is empty exactly when no execution of the run failed |
| ExtractPostgres.FailureReportAtFailures | my_code-challenge/Scripts/extract_postgres.py:45-49 | every failure is reported and nothing else: the `j`-th report line is the preview of the `j`-th failed execution |
| ExtractPostgres.OneFailureReported | my_code-challenge/Scripts/extract_postgres.py:45-49 | when only the statement at position k fails, exactly that statement's preview is reported |
| ExtractPostgres.FailureReportSnoc | my_code-challenge/Scripts/extract_postgres.py:45-49 | one more execution adds its preview at the end of the report exactly when it failed |
| ExtractPostgres.PlainQueries | my_code-challenge/Scripts/extract_postgres.py:47 | one parameterless statement per command, the command's text as it is, in order |
| ExtractPostgres.RunCommands | my_code-challenge/Scripts/extract_postgres.py:45-49 | every command is sent exactly once, in order, whatever happened to earlier ones; the log grows by exactly that run and the report holds the previews of the failed ones in order |
| ExtractPostgres.ExecuteSqlFile | my_code-challenge/Scripts/extract_postgres.py:36-52 | with no command left nothing is sent, nothing committed and the outcome is `NoValidCommands`, the message of line 42; otherwise all commands are sent in order, then exactly one commit follows, and the outcome `Completed` holds the previews of the error lines of line 49, in order, before the success message of line 52 |
| Database.Connection.Execute | my_code-challenge/Scripts/extract_postgres.py:47 | sending a statement appends it to the log with the oracle's verdict on the history so far |
| Database.Connection.Commit | my_code-challenge/Scripts/extract_postgres.py:51 | a commit appends one commit event to the log |
| Database.JudgedAfterFirst | my_code-challenge/Scripts/extract_postgres.py:45-49 | the execution of the first statement followed by judged executions of the rest, sent after it, are judged executions of all of them |
| Database.RunAll | my_code-challenge/Scripts/extract_postgres.py:45-49 | one execution per statement, in order, each judged on everything sent before it |
| Database.RunUntilFailure | my_code-challenge/Scripts/extract_csv.py:34-41 | the executions of a prefix of the statements, each judged on everything before it; all but the last succeeded, and the run stops short only after a failure |
| Database.RunUntilFailureStep | my_code-challenge/Scripts/extract_csv.py:37-39 | while everything so far succeeded, sending the next statement extends the run by it, and a failure ends the run |
| Database.RunUntilFailureIsPrefix | my_code-challenge/Scripts/extract_csv.py:34-41 | stopping at the first failure changes nothing before it: the run is a prefix of the run that carries on |
| Database.RunUntilFailureSucceeded | my_code-challenge/Scripts/extract_csv.py:34-41 | a stopping run succeeded throughout exactly when it reached the end and every statement succeeded |
| Lists.Filter | my_code-challenge/Scripts/extract_postgres.py:22-26 | the elements that pass the test, in their original order, each kept element appended after the earlier ones, as the loop does; it is also the `if` clause of the comprehension of line 39 |
| Lists.KeptPositions | my_code-challenge/Scripts/extract_postgres.py:22-26 | the kept positions are in range and strictly increasing, and a position is listed exactly when its element is kept |
| Lists.FilterAtPositions | my_code-challenge/Scripts/extract_postgres.py:22-26 | the filter returns the element at each kept position, in order, and nothing else |
| Lists.FilterKeepsAll | my_code-challenge/Scripts/extract_postgres.py:22-26 | a filter that keeps everything returns the list unchanged |
| Lists.FilterKeepsOnlyKept | my_code-challenge/Scripts/extract_postgres.py:22-26 | every element the filter returns satisfies the test |
| Lists.FilterPrefixStep | my_code-challenge/Scripts/extract_postgres.py:22-26 | the filter of the first `i + 1` elements is the filter of the first `i`, plus element `i` exactly when it is kept |
| Lists.FilterTwoDroppedTwoKept | my_code-challenge/Scripts/extract_postgres.py:22-26 | of four elements, the first two dropped and the last two kept, the filter returns the last two |
| Lists.FilterSnoc | my_code-challenge/Scripts/extract_postgres.py:22-26 | one more element adds itself at the end exactly when it is kept |
| ExtractCsv.ColumnDefinitions | my_code-challenge/Scripts/extract_csv.py:34 | one column definition per header |
| ExtractCsv.ColumnList | my_code-challenge/Scripts/extract_csv.py:34 | the column definitions joined with `, ` |
| ExtractCsv.CreateTableSql | my_code-challenge/Scripts/extract_csv.py:34 | `CREATE TABLE IF NOT EXISTS <table> (<column list>)` |
| ExtractCsv.ColumnListSnoc | my_code-challenge/Scripts/extract_csv.py:34 | one more header adds its `<header> TEXT` at the end of the column list, after `, ` unless it is the first |
| ExtractCsv.ColumnsReadBack | my_code-challenge/Scripts/extract_csv.py:33-34 | for a non-empty header row in which no header holds a comma, splitting the column list at commas gives back every header, in order, as `<header> TEXT` |
| ExtractCsv.ColumnCount | my_code-challenge/Scripts/extract_csv.py:34 | for a non-empty header row in which no header holds a comma, the column list holds one comma fewer than there are headers |
| ExtractCsv.Placeholders | my_code-challenge/Scripts/extract_csv.py:38 | `', '.join(['%s'] * n)`: `n` copies of `%s` joined with `, ` |
| ExtractCsv.InsertSql | my_code-challenge/Scripts/extract_csv.py:39 | `INSERT INTO <table> VALUES (<placeholders>)` with one placeholder per field of the row |
| ExtractCsv.PlaceholdersSnoc | my_code-challenge/Scripts/extract_csv.py:38 | one more field adds `, %s` at the end of the placeholders, or `%s` alone for the first field |
| ExtractCsv.PlaceholderCount | my_code-challenge/Scripts/extract_csv.py:38 | the placeholders hold exactly one `%` per field and are empty exactly for an empty row |
| ExtractCsv.InsertPlaceholdersMatchRow | my_code-challenge/Scripts/extract_csv.py:38-39 | each INSERT expects exactly as many parameters as its row has fields, provided the table name holds no `%` |
| ExtractCsv.LoadPlan | my_code-challenge/Scripts/extract_csv.py:33-39 | one statement per row of `data`: the CREATE from the header row first, then for each later row, in order, its INSERT with that row as parameters; the header row is never inserted |
| ExtractCsv.WriteToPostgres | my_code-challenge/Scripts/extract_csv.py:28-45 | the CREATE and then the INSERTs are sent until the first failure; the commit follows exactly when `data` is non-empty and every statement succeeded; empty `data` sends nothing |
| ExtractCsv.CommitMeansEveryStatementSucceeded | my_code-challenge/Scripts/extract_csv.py:37-41 | a committed load sent every statement of its plan, in order, and each succeeded |
| ExtractCsv.CsvFileName | my_code-challenge/Scripts/extract_csv.py:57 | the file name `order_details.csv` |
| ExtractCsv.TableName | my_code-challenge/Scripts/extract_csv.py:69 | `file_name.replace('.csv', '')` |
| ExtractCsv.TableNameAround | my_code-challenge/Scripts/extract_csv.py:69 | removing `.csv` works separately on the two sides of an occurrence |
| ExtractCsv.TableNameWithoutExtension | my_code-challenge/Scripts/extract_csv.py:69 | a file name without `.csv` is its own table name |
| ExtractCsv.TableNameDropsExtension | my_code-challenge/Scripts/extract_csv.py:69 | a name that does not itself contain `.csv`, followed by `.csv`, loses exactly the extension |
| ExtractCsv.OrderDetailsTable | my_code-challenge/Scripts/extract_csv.py:57-69 | `order_details.csv` is loaded into the table `order_details` |
| ExtractCsv.LocalPath | my_code-challenge/Scripts/extract_csv.py:56 | `data/csv/` followed by the execution date |
| ExtractCsv.LocalPathsDistinct | my_code-challenge/Scripts/extract_csv.py:55-56 | different execution dates give different snapshot directories under `data/csv/` |
| ExtractCsv.ExtractCsv | my_code-challenge/Scripts/extract_csv.py:52-70 | the snapshot directory is `data/csv/<date>` and the parsed rows are loaded into `order_details` as `write_to_postgres` does |

## Left out

- HTTP downloads (`requests.get`, `raise_for_status`): network I/O. The downloaded text and
  the parsed CSV rows are inputs.
- File reads and writes, `os.makedirs`, `os.remove` and `save_to_local_disk`: filesystem
  plumbing. `ExecuteSqlFile` takes what `file.read()` returns in text mode, where `\r\n` and a lone `\r`
  are already turned into `\n`. Raw text with carriage-return line ends gives different lines.
- CSV parsing by the `csv` module: library behaviour. `ExtractCsv` takes the parsed rows.
- psycopg2 internals: connecting, `autocommit`, `cursor()`, `fetchall`, `cursor.description`
  and closing. Cursor and connection act on one session and are one `Connection` here.
- The server's error message `e` in the printed lines: it comes from the server. Only the
  statement preview is modelled.
- The table export loop, its `information_schema` query and the `DROP DATABASE` cleanup in
  `extract_postgres`: they depend only on database state.
- Failures of `conn.cursor()`, of opening or reading the file and of `conn.commit()`, which the
  outer `except` clauses would catch: `Connection.Commit` always succeeds. The outer `except`
  of `write_to_postgres` is modelled only as the end of the load after a failed statement or
  an empty `data`.
- The `finally` block of `write_to_postgres` and its `if conn:` test: Python scoping artefacts
  around closing the connection, which is not modelled.
- `datetime.now().strftime`: clock access. The execution date is an input string.
- `Scripts/extract_and_transfer.py` is not part of this model: it only launches docker-compose
  and runs fixed queries.
- Quoting of identifiers and header names: the scripts interpolate them into SQL unquoted, and
  the model does the same without stating anything about injection.

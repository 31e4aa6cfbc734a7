/**
 * Loading a database dump script (Scripts/extract_postgres.py): dump metadata and blank
 * lines are removed, the rest is cut into statements at every `;`, and the statements are
 * sent one by one, carrying on past failures, with one commit at the end.
 */
module ExtractPostgres {
  import opened PyStr
  import opened Lists
  import opened Database

  /** The prefixes that mark a dump metadata or comment line. */
  function MetadataPrefixes(): seq<string> {
    ["Type:", "Schema:", "Owner:", "--"]
  }

  /**
   * A line the cleaner keeps: its strip is neither empty nor starts with a metadata prefix
   * (the loop skips a line exactly when this does not hold).
   */
  predicate IsKeptLine(line: string) {
    var t := Strip(line);
    !(StartsWithAny(t, MetadataPrefixes()) || t == [])
  }

  /** What `clean_sql_commands` returns: the kept lines, unchanged, joined with newlines. */
  function Clean(sql: string): string {
    Join("\n", Filter(IsKeptLine, Split(sql, '\n')))
  }

  /** `clean_sql_commands`: one pass over the lines, appending those that are kept. */
  method CleanSqlCommands(sqlCommands: string) returns (cleaned: string)
    ensures cleaned == Clean(sqlCommands)
  {
    var lines := Split(sqlCommands, '\n');
    var cleanedLines: seq<string> := [];
    var i := 0;
    while i < |lines|
      invariant 0 <= i <= |lines|
      invariant cleanedLines == Filter(IsKeptLine, lines[..i])
    {
      var line := lines[i];
      var drop := !IsKeptLine(line);
      CleanStep(lines, i, cleanedLines, drop);
      i := i + 1;
      if drop {
        continue;
      }
      cleanedLines := cleanedLines + [line];
    }
    assert lines[..i] == lines;
    cleaned := Join("\n", cleanedLines);
  }

  /** One step of the cleaning loop: the line at `i` is appended exactly when it is kept. */
  lemma CleanStep(lines: seq<string>, i: nat, cleanedLines: seq<string>, drop: bool)
    requires i < |lines| && cleanedLines == Filter(IsKeptLine, lines[..i])
    requires drop == !IsKeptLine(lines[i])
    ensures Filter(IsKeptLine, lines[..i + 1]) == if drop then cleanedLines else cleanedLines + [lines[i]]
  {
    FilterPrefixStep(IsKeptLine, lines, i);
  }

  /**
   * Which of the script's lines survive, and where they came from: the `j`-th kept line is the line at
   * position `kept[j]`, unchanged; the positions increase; and a position is kept exactly
   * when its line is neither blank nor metadata.
   */
  lemma KeptLinesAreTheCleanLines(lines: seq<string>)
    ensures var kept, out := KeptPositions(IsKeptLine, lines), Filter(IsKeptLine, lines);
      && |out| == |kept|
      && (forall j :: 0 <= j < |out| ==> kept[j] < |lines| && out[j] == lines[kept[j]])
      && (forall j, k :: 0 <= j < k < |kept| ==> kept[j] < kept[k])
      && (forall i :: 0 <= i < |lines| ==> (IsKeptLine(lines[i]) <==> i in kept))
  {
    FilterAtPositions(IsKeptLine, lines);
  }

  /**
   * Splitting the cleaned script at newlines gives back exactly the kept lines (no kept line
   * holds a newline); when no line is kept the cleaned script is empty.
   */
  lemma CleanedLines(sql: string)
    ensures var kept := Filter(IsKeptLine, Split(sql, '\n'));
      && (kept == [] ==> Clean(sql) == [])
      && (kept != [] ==> Split(Clean(sql), '\n') == kept)
  {
    var lines := Split(sql, '\n');
    var kept := Filter(IsKeptLine, lines);
    if kept != [] {
      forall j | 0 <= j < |kept| ensures '\n' !in kept[j] {
        FilterOnlyFrom(IsKeptLine, lines, j);
      }
      SplitJoin(kept, '\n');
    }
  }

  /** Cleaning a cleaned script changes nothing. */
  lemma CleanIdempotent(sql: string)
    ensures Clean(Clean(sql)) == Clean(sql)
  {
    var kept := Filter(IsKeptLine, Split(sql, '\n'));
    if kept == [] {
      assert Clean(sql) == [];
      assert Split([], '\n') == [[]];
      assert !IsKeptLine([]);
      assert Filter(IsKeptLine, [[]]) == [];
    } else {
      forall j | 0 <= j < |kept| ensures '\n' !in kept[j] {
        FilterOnlyFrom(IsKeptLine, Split(sql, '\n'), j);
      }
      SplitJoin(kept, '\n');
      FilterKeepsOnlyKept(IsKeptLine, Split(sql, '\n'));
      FilterKeepsAll(IsKeptLine, kept);
    }
  }

  predicate NonEmpty(s: string) {
    s != []
  }

  function StripAll(fragments: seq<string>): (r: seq<string>)
    ensures |r| == |fragments|
  {
    seq(|fragments|, i requires 0 <= i < |fragments| => Strip(fragments[i]))
  }

  /** `[cmd.strip() for cmd in sql_commands.split(";") if cmd.strip()]`. */
  function Commands(cleaned: string): seq<string> {
    Filter(NonEmpty, StripAll(Split(cleaned, ';')))
  }

  /**
   * The commands kept from the `;`-separated fragments `frags` of a script are their strips
   * that are not empty, in the order the fragments occur: a fragment gives a command exactly
   * when its strip is not empty.
   */
  lemma CommandsFromFragments(frags: seq<string>)
    ensures var cmds := Filter(NonEmpty, StripAll(frags));
      var kept := KeptPositions(NonEmpty, StripAll(frags));
      && |cmds| == |kept|
      && (forall j :: 0 <= j < |cmds| ==> kept[j] < |frags| && cmds[j] == Strip(frags[kept[j]]))
      && (forall j, k :: 0 <= j < k < |kept| ==> kept[j] < kept[k])
      && (forall i :: 0 <= i < |frags| ==> (Strip(frags[i]) != [] <==> i in kept))
  {
    FilterAtPositions(NonEmpty, StripAll(frags));
  }

  /** Every command is non-empty, its own strip, and free of `;`. */
  lemma CommandsAreTrimmed(cleaned: string)
    ensures forall j :: 0 <= j < |Commands(cleaned)| ==>
      var cmd := Commands(cleaned)[j];
      cmd != [] && Strip(cmd) == cmd && ';' !in cmd
  {
    var frags := Split(cleaned, ';');
    var stripped := StripAll(frags);
    FilterAtPositions(NonEmpty, stripped);
    var cmds, kept := Commands(cleaned), KeptPositions(NonEmpty, stripped);
    forall j | 0 <= j < |cmds|
      ensures cmds[j] != [] && Strip(cmds[j]) == cmds[j] && ';' !in cmds[j]
    {
      assert NonEmpty(cmds[j]);
      assert cmds[j] == Strip(frags[kept[j]]);
      StripIdempotent(frags[kept[j]]);
      StripKeepsAbsent(frags[kept[j]], ';');
    }
  }

  /** Fragments that are all non-empty and their own strip are the commands, unchanged. */
  lemma CommandsOfTrimmedPieces(cleaned: string, pieces: seq<string>)
    requires Split(cleaned, ';') == pieces
    requires forall i :: 0 <= i < |pieces| ==> pieces[i] != [] && Strip(pieces[i]) == pieces[i]
    ensures Commands(cleaned) == pieces
  {
    assert StripAll(pieces) == pieces;
    FilterKeepsAll(NonEmpty, pieces);
  }

  /** Stripping one more fragment adds its strip at the end. */
  lemma StripAllSnoc(frags: seq<string>, f: string)
    ensures StripAll(frags + [f]) == StripAll(frags) + [Strip(f)]
  {
    var r, r0 := StripAll(frags + [f]), StripAll(frags);
    forall i | 0 <= i < |r0| ensures r[i] == r0[i] {
      assert (frags + [f])[i] == frags[i];
    }
  }

  /**
   * A `;` at the very end of a script adds no command: the empty fragment after it strips
   * to nothing and is dropped.
   */
  lemma CommandsIgnoreFinalSemicolon(s: string)
    ensures Commands(s + ";") == Commands(s)
  {
    var frags := Split(s, ';');
    assert s + ";" == s + [';'] + [];
    SplitBeforePiece(s, ';', []);
    StripAllSnoc(frags, []);
    assert Strip([]) == [];
    FilterSnoc(NonEmpty, StripAll(frags), []);
  }

  /** Fragments whose strips are all non-empty give exactly those strips as commands. */
  lemma CommandsOfStrippedFragments(cleaned: string, frags: seq<string>, cmds: seq<string>)
    requires Split(cleaned, ';') == frags
    requires StripAll(frags) == cmds && [] !in cmds
    ensures Commands(cleaned) == cmds
  {
    FilterKeepsAll(NonEmpty, cmds);
  }

  /** Two `;`-free commands that are their own strip, joined by one `;`, split back apart. */
  lemma CommandsOfTwo(a: string, b: string)
    requires ';' !in a && ';' !in b
    requires a != [] && !IsSpace(a[0]) && !IsSpace(a[|a| - 1])
    requires b != [] && !IsSpace(b[0]) && !IsSpace(b[|b| - 1])
    ensures Commands(a + ";" + b) == [a, b]
  {
    SplitTwo(a, ';', b);
    StripUnchanged(a);
    StripUnchanged(b);
    CommandsOfTrimmedPieces(a + ";" + b, [a, b]);
  }

  /**
   * The split does not know SQL quoting: a `;` inside a string literal ends a command.
   */
  lemma NaiveSplitInsideLiteral()
    ensures Commands("INSERT INTO t VALUES ('a;b')") == ["INSERT INTO t VALUES ('a", "b')"]
  {
    var a, b := "INSERT INTO t VALUES ('a", "b')";
    CommandsOfTwo(a, b);
    assert a + ";" + b == "INSERT INTO t VALUES ('a;b')";
  }

  /** Of four lines, two dropped and two kept, the cleaned script holds the two kept ones. */
  lemma CleanFourLines(l1: string, l2: string, l3: string, l4: string)
    requires '\n' !in l1 && '\n' !in l2 && '\n' !in l3 && '\n' !in l4
    requires !IsKeptLine(l1) && !IsKeptLine(l2) && IsKeptLine(l3) && IsKeptLine(l4)
    ensures Clean(l1 + "\n" + l2 + "\n" + l3 + "\n" + l4) == l3 + "\n" + l4
  {
    SplitFour(l1, l2, l3, l4, '\n');
    FilterTwoDroppedTwoKept(IsKeptLine, l1, l2, l3, l4);
    assert Join("\n", [l3, l4]) == l3 + "\n" + l4;
  }

  /** Three commands, the second after a newline, each ended by `;`, split back apart. */
  lemma CommandsOfThree(c1: string, c2: string, c3: string)
    requires ';' !in c1 && ';' !in c2 && ';' !in c3 && '\n' !in c2
    requires c1 != [] && !IsSpace(c1[0]) && !IsSpace(c1[|c1| - 1])
    requires c2 != [] && !IsSpace(c2[0]) && !IsSpace(c2[|c2| - 1])
    requires c3 != [] && !IsSpace(c3[0]) && !IsSpace(c3[|c3| - 1])
    ensures Commands(c1 + ";" + ("\n" + c2 + ";" + c3 + ";")) == [c1, c2, c3]
  {
    var f2 := "\n" + c2;
    var t := c1 + ";" + (f2 + ";" + c3);
    assert c1 + ";" + (f2 + ";" + c3 + ";") == t + ";";
    CommandsIgnoreFinalSemicolon(t);
    ThreeFragments(c1, f2, c3);
    StripUnchanged(c1);
    StripAfterNewline(c2);
    StripUnchanged(c3);
    StripThree(c1, f2, c3, c1, c2, c3);
    CommandsOfStrippedFragments(t, [c1, f2, c3], [c1, c2, c3]);
  }

  /** Stripping three fragments strips each of them. */
  lemma StripThree(f1: string, f2: string, f3: string, c1: string, c2: string, c3: string)
    requires Strip(f1) == c1 && Strip(f2) == c2 && Strip(f3) == c3
    ensures StripAll([f1, f2, f3]) == [c1, c2, c3]
  {
  }

  /** A trimmed command after a newline strips back to itself. */
  lemma StripAfterNewline(c: string)
    requires c != [] && !IsSpace(c[0]) && !IsSpace(c[|c| - 1])
    ensures Strip("\n" + c) == c
  {
    assert "\n" + c == ['\n'] + c;
    StripAfterSpace('\n', c);
    StripUnchanged(c);
  }

  /** Three `;`-free fragments joined by `;` split back into themselves. */
  lemma ThreeFragments(f1: string, f2: string, f3: string)
    requires ';' !in f1 && ';' !in f2 && ';' !in f3
    ensures Split(f1 + ";" + (f2 + ";" + f3), ';') == [f1, f2, f3]
  {
    assert f1 + ";" + (f2 + ";" + f3) == f1 + [';'] + (f2 + [';'] + f3);
    SplitAfterPiece(f1, ';', f2 + [';'] + f3);
    SplitTwo(f2, ';', f3);
  }

  /** A line that starts with none of the metadata prefixes' first characters is kept. */
  lemma StatementLineKept(line: string)
    requires line != [] && !IsSpace(line[0]) && !IsSpace(line[|line| - 1])
    requires line[0] != 'T' && line[0] != 'S' && line[0] != 'O' && line[0] != '-'
    ensures IsKeptLine(line)
  {
    StripUnchanged(line);
    StartsWithAnyIff(line, MetadataPrefixes());
    forall i | 0 <= i < |MetadataPrefixes()| ensures !StartsWith(line, MetadataPrefixes()[i]) {
      var p := MetadataPrefixes()[i];
      assert p != [] && p[0] in "TSO-";
      assert line[0] != p[0];
    }
  }

  /** A line whose stripped form starts with a metadata prefix is dropped. */
  lemma MetadataLineDropped(line: string, prefix: string)
    requires prefix in MetadataPrefixes()
    requires line != [] && !IsSpace(line[0]) && !IsSpace(line[|line| - 1])
    requires |prefix| <= |line| && line[..|prefix|] == prefix
    ensures !IsKeptLine(line)
  {
    StripUnchanged(line);
    StartsWithAnyIff(line, MetadataPrefixes());
  }

  /** The cleaning half of the example below: the owner and comment lines are dropped. */
  lemma OwnerCommentDropped(l1: string, l2: string, c1: string, c2: string, c3: string)
    requires '\n' !in l1 && |l1| >= 6 && !IsSpace(l1[|l1| - 1]) && l1[..6] == "Owner:"
    requires '\n' !in l2 && |l2| >= 2 && !IsSpace(l2[|l2| - 1]) && l2[..2] == "--"
    requires '\n' !in c1 && '\n' !in c2 && '\n' !in c3
    requires c1 != [] && !IsSpace(c1[0]) && c2 != [] && !IsSpace(c2[0])
    requires c1[0] !in "TSO-" && c2[0] !in "TSO-"
    ensures Clean(l1 + "\n" + l2 + "\n" + c1 + ";" + "\n" + c2 + ";" + c3 + ";")
         == c1 + ";" + ("\n" + c2 + ";" + c3 + ";")
  {
    ExampleLinesKept(c1, c2, c3);
    MetadataLineDropped(l1, "Owner:");
    MetadataLineDropped(l2, "--");
    CleanFourLines(l1, l2, c1 + ";", c2 + ";" + c3 + ";");
    assert l1 + "\n" + l2 + "\n" + c1 + ";" + "\n" + c2 + ";" + c3 + ";"
        == l1 + "\n" + l2 + "\n" + (c1 + ";") + "\n" + (c2 + ";" + c3 + ";");
    assert (c1 + ";") + "\n" + (c2 + ";" + c3 + ";") == c1 + ";" + ("\n" + c2 + ";" + c3 + ";");
  }

  lemma ExampleLinesKept(c1: string, c2: string, c3: string)
    requires '\n' !in c1 && '\n' !in c2 && '\n' !in c3
    requires c1 != [] && !IsSpace(c1[0]) && c2 != [] && !IsSpace(c2[0])
    requires c1[0] !in "TSO-" && c2[0] !in "TSO-"
    ensures IsKeptLine(c1 + ";") && '\n' !in c1 + ";"
    ensures IsKeptLine(c2 + ";" + c3 + ";") && '\n' !in c2 + ";" + c3 + ";"
  {
    var l3, l4 := c1 + ";", c2 + ";" + c3 + ";";
    assert l3[0] == c1[0] && l3[|l3| - 1] == ';';
    StatementLineKept(l3);
    assert l4[0] == c2[0] && l4[|l4| - 1] == ';';
    StatementLineKept(l4);
  }

  /**
   * The shape of the example below: an owner line, a comment line, then two statement lines
   * of which the second holds one more `;`, give three commands.
   */
  lemma OwnerCommentTwoStatements(l1: string, l2: string, c1: string, c2: string, c3: string)
    requires '\n' !in l1 && |l1| >= 6 && !IsSpace(l1[|l1| - 1]) && l1[..6] == "Owner:"
    requires '\n' !in l2 && |l2| >= 2 && !IsSpace(l2[|l2| - 1]) && l2[..2] == "--"
    requires ';' !in c1 && ';' !in c2 && ';' !in c3
    requires '\n' !in c1 && '\n' !in c2 && '\n' !in c3
    requires c1 != [] && !IsSpace(c1[0]) && !IsSpace(c1[|c1| - 1])
    requires c2 != [] && !IsSpace(c2[0]) && !IsSpace(c2[|c2| - 1])
    requires c3 != [] && !IsSpace(c3[0]) && !IsSpace(c3[|c3| - 1])
    requires c1[0] !in "TSO-" && c2[0] !in "TSO-"
    ensures Commands(Clean(l1 + "\n" + l2 + "\n" + c1 + ";" + "\n" + c2 + ";" + c3 + ";")) == [c1, c2, c3]
  {
    OwnerCommentDropped(l1, l2, c1, c2, c3);
    CommandsOfThree(c1, c2, c3);
  }

  /**
   * A dump script with an owner line, a comment and two statements, the second holding a
   * `;` inside a string literal, gives three commands: the literal is cut in two.
   */
  lemma ExampleScript()
    ensures Commands(Clean("Owner: admin" + "\n" + "--comment" + "\n"
                           + "CREATE TABLE t (a TEXT)" + ";" + "\n"
                           + "INSERT INTO t VALUES ('a" + ";" + "b')" + ";"))
         == ["CREATE TABLE t (a TEXT)", "INSERT INTO t VALUES ('a", "b')"]
  {
    ExampleMetadataLines();
    ExampleCreatePiece();
    ExampleInsertHead();
    ExampleInsertTail();
    OwnerCommentTwoStatements("Owner: admin", "--comment",
      "CREATE TABLE t (a TEXT)", "INSERT INTO t VALUES ('a", "b')");
  }

  /** The example's owner and comment lines have the shape the cleaner drops. */
  lemma ExampleMetadataLines()
    ensures var owner := "Owner: admin";
      '\n' !in owner && |owner| >= 6 && !IsSpace(owner[|owner| - 1]) && owner[..6] == "Owner:"
    ensures var comment := "--comment";
      '\n' !in comment && |comment| >= 2 && !IsSpace(comment[|comment| - 1]) && comment[..2] == "--"
  {
    var owner, comment := "Owner: admin", "--comment";
    assert owner[..6] == "Owner:" && comment[..2] == "--";
  }

  /** The example's CREATE is one trimmed line without `;`, starting with no metadata prefix. */
  lemma ExampleCreatePiece()
    ensures var c := "CREATE TABLE t (a TEXT)";
      ';' !in c && '\n' !in c && c != [] && !IsSpace(c[0]) && !IsSpace(c[|c| - 1]) && c[0] !in "TSO-"
  {
  }

  /** The INSERT up to the `;` in its literal is one trimmed line, starting with no metadata prefix. */
  lemma ExampleInsertHead()
    ensures var c := "INSERT INTO t VALUES ('a";
      ';' !in c && '\n' !in c && c != [] && !IsSpace(c[0]) && !IsSpace(c[|c| - 1]) && c[0] !in "TSO-"
  {
  }

  /** The rest of the INSERT after that `;` is trimmed and holds no `;` or newline. */
  lemma ExampleInsertTail()
    ensures var c := "b')";
      ';' !in c && '\n' !in c && c != [] && !IsSpace(c[0]) && !IsSpace(c[|c| - 1])
  {
  }

  /** `command[:50]`: the start of a command shown in its error message. */
  function Preview(command: string): (p: string)
    ensures p <= command
    ensures |p| == if |command| < 50 then |command| else 50
  {
    command[..if |command| < 50 then |command| else 50]
  }

  /** An execution that raised, and so prints an error line. */
  predicate Failed(e: Event) {
    e.Executed? && !e.ok
  }

  /** The previews of the commands whose execution failed, in the order they ran. */
  function FailureReport(ev: seq<Event>): seq<string> {
    if ev == [] then []
    else
      (if Failed(ev[0]) then [Preview(ev[0].query.sql)] else [])
      + FailureReport(ev[1..])
  }

  /** A run in which every command succeeded reports no failure. */
  lemma {:induction false} NothingFailedNothingReported(ev: seq<Event>)
    requires AllSucceeded(ev)
    ensures FailureReport(ev) == []
  {
    if ev != [] {
      assert AllSucceeded(ev[1..]) by {
        assert forall i :: 1 <= i < |ev| ==> ev[1..][i - 1] == ev[i];
      }
      NothingFailedNothingReported(ev[1..]);
    }
  }

  /** When only the command at position `k` fails, just that command is reported. */
  lemma {:induction false} OneFailureReported(ev: seq<Event>, k: nat)
    requires k < |ev|
    requires forall i :: 0 <= i < |ev| ==> ev[i].Executed? && (ev[i].ok <==> i != k)
    ensures FailureReport(ev) == [Preview(ev[k].query.sql)]
  {
    assert forall i :: 1 <= i < |ev| ==> ev[1..][i - 1] == ev[i];
    if k == 0 {
      NothingFailedNothingReported(ev[1..]);
    } else {
      OneFailureReported(ev[1..], k - 1);
    }
  }

  /** The statements `execute_sql_file` sends: each command as it is, without parameters. */
  function PlainQueries(commands: seq<string>): (qs: seq<Query>)
    ensures |qs| == |commands|
  {
    seq(|commands|, i requires 0 <= i < |commands| => Plain(commands[i]))
  }

  datatype ScriptOutcome =
    | NoValidCommands                    // "No valid SQL commands found in the file."
    | Completed(failures: seq<string>)   // one "Error executing command" line per failure

  /** Reporting one more execution: a failure adds its preview at the end. */
  lemma {:induction false} FailureReportSnoc(ev: seq<Event>, e: Event)
    ensures FailureReport(ev + [e]) ==
      FailureReport(ev) + (if Failed(e) then [Preview(e.query.sql)] else [])
  {
    if ev == [] {
      assert [] + [e] == [e];
    } else {
      assert (ev + [e])[1..] == ev[1..] + [e];
      FailureReportSnoc(ev[1..], e);
    }
  }

  /**
   * Every failure is reported, in order, and nothing else: the `j`-th line of the report is
   * the preview of the `j`-th failed execution (the failed positions are those
   * `KeptPositions(Failed, ev)` lists).
   */
  lemma {:induction false} FailureReportAtFailures(ev: seq<Event>)
    ensures var failed := KeptPositions(Failed, ev);
      && |FailureReport(ev)| == |failed|
      && forall j :: 0 <= j < |failed| ==>
           ev[failed[j]].Executed? && FailureReport(ev)[j] == Preview(ev[failed[j]].query.sql)
    decreases |ev|
  {
    if ev != [] {
      var init, e := ev[..|ev| - 1], ev[|ev| - 1];
      assert init + [e] == ev;
      FailureReportAtFailures(init);
      FailureReportSnoc(init, e);
      var idx0 := KeptPositions(Failed, init);
      forall j | 0 <= j < |idx0| ensures ev[idx0[j]] == init[idx0[j]] {
      }
    }
  }

  /** The report is empty exactly when no execution of the run failed. */
  lemma NothingReportedIffNothingFailed(ev: seq<Event>)
    ensures FailureReport(ev) == [] <==> forall i :: 0 <= i < |ev| ==> !Failed(ev[i])
  {
    FailureReportAtFailures(ev);
    var failed := KeptPositions(Failed, ev);
    if FailureReport(ev) != [] {
      assert Failed(ev[failed[0]]);
    }
  }

  /**
   * The loop of `execute_sql_file`: every command is sent once, in order, whatever happened
   * to the ones before it, and each failing command is reported by its preview.
   */
  method RunCommands(conn: Connection, commands: seq<string>) returns (failures: seq<string>)
    modifies conn
    ensures conn.log == old(conn.log) + RunAll(conn.rejects, old(conn.log), PlainQueries(commands))
    ensures failures == FailureReport(RunAll(conn.rejects, old(conn.log), PlainQueries(commands)))
  {
    ghost var h0 := conn.log;
    ghost var total := RunAll(conn.rejects, h0, PlainQueries(commands));
    failures := [];
    var i := 0;
    while i < |commands|
      invariant 0 <= i <= |commands|
      invariant conn.log == h0 + total[..i]
      invariant failures == FailureReport(total[..i])
    {
      var command := commands[i];
      var ok := conn.Execute(Plain(command));
      assert total[i] == Executed(Plain(command), ok);
      assert total[..i + 1] == total[..i] + [total[i]];
      FailureReportSnoc(total[..i], total[i]);
      if !ok {
        failures := failures + [Preview(command)];
      }
      i := i + 1;
    }
    assert total[..i] == total;
  }

  /**
   * `execute_sql_file` on the text of the file: when no command remains nothing is sent and
   * nothing committed; otherwise the commands are run as `RunCommands` does and then the
   * connection commits once.
   */
  method ExecuteSqlFile(conn: Connection, sqlText: string) returns (outcome: ScriptOutcome)
    modifies conn
    ensures var cmds := Commands(Clean(sqlText));
      var run := RunAll(conn.rejects, old(conn.log), PlainQueries(cmds));
      && (cmds == [] ==> outcome == NoValidCommands && conn.log == old(conn.log))
      && (cmds != [] ==>
            outcome == Completed(FailureReport(run)) && conn.log == old(conn.log) + run + [Committed])
  {
    var sqlCommands := CleanSqlCommands(sqlText);
    var commands := Commands(sqlCommands);
    if |commands| == 0 {
      return NoValidCommands;
    }
    var failures := RunCommands(conn, commands);
    conn.Commit();
    outcome := Completed(failures);
  }

  /** An empty script yields no command, so nothing is executed or committed. */
  lemma EmptyScriptHasNoCommands()
    ensures Commands(Clean("")) == []
  {
    assert Split("", '\n') == [[]];
    assert !IsKeptLine([]);
    assert Filter(IsKeptLine, [[]]) == [];
    assert Split("", ';') == [[]];
    assert StripAll([[]]) == [[]];
    assert Filter(NonEmpty, [[]]) == [];
  }
}

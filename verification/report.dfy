/** The top level: parse the arguments, walk the tree, then count each
    matched file in order, keeping a running total. The first failure ends
    the run. Terminal output is reduced to the rows and the ending it would
    print. */
module Report {
  import opened Base
  import opened Args
  import opened Walk
  import opened LineCount

  /** One printed `<path>: <count>` line. */
  datatype Row = Row(file: Path, lines: nat)

  /** How the run ends: the total line, or the error frame. */
  datatype Ending = Total(lines: nat) | Failed(error: Error)

  /** The per-file rows printed before the run ended, and how it ended. */
  datatype Outcome = Outcome(rows: seq<Row>, ending: Ending)

  /** Sum of the counts of `rows`. */
  function Sum(rows: seq<Row>): (total: nat)
  {
    if |rows| == 0 then 0 else Sum(rows[..|rows| - 1]) + rows[|rows| - 1].lines
  }

  /** `rows` are the rows of the first `|rows|` files, each of which could be
      read, with its line count. */
  predicate Counted(files: seq<Path>, read: Path -> Option<string>, rows: seq<Row>)
  {
    && |rows| <= |files|
    && forall i :: 0 <= i < |rows| ==>
         read(files[i]).Some? && rows[i] == Row(files[i], |Lines(read(files[i]).value)|)
  }

  /** `out` is what counting `files` reports: a row per file in order until
      the first file that cannot be read, whose error ends the run; if every
      file can be read, the total is the sum of the rows. */
  predicate Accounts(files: seq<Path>, read: Path -> Option<string>, out: Outcome)
  {
    && Counted(files, read, out.rows)
    && match out.ending
       case Total(n) => |out.rows| == |files| && n == Sum(out.rows)
       case Failed(e) =>
         && |out.rows| < |files|
         && read(files[|out.rows|]).None?
         && e == UnreadableFile(files[|out.rows|])
  }

  /** The counting loop: reads each file through `read` (`None` when it
      cannot be read as text), counts its lines and adds them to the total. */
  method CountFiles(files: seq<Path>, read: Path -> Option<string>) returns (out: Outcome)
    ensures Accounts(files, read, out)
  {
    var rows: seq<Row> := [];
    var total: nat := 0;
    var i := 0;
    while i < |files|
      invariant 0 <= i <= |files| && |rows| == i
      invariant Counted(files, read, rows)
      invariant total == Sum(rows)
    {
      match read(files[i])
      case None =>
        return Outcome(rows, Failed(UnreadableFile(files[i])));
      case Some(text) =>
        var n := CountLines(text);
        assert (rows + [Row(files[i], n)])[..|rows|] == rows;
        rows := rows + [Row(files[i], n)];
        total := total + n;
        i := i + 1;
    }
    return Outcome(rows, Total(total));
  }

  /** The whole program on an argument list (program name excluded), the
      filesystem seen from the directory argument, and a reader for file
      contents. A failed walk ends the run before any file is counted. */
  method Run(argv: seq<string>, root: Option<Node>, read: Path -> Option<string>) returns (out: Outcome)
    ensures var walk := GetFiles(GetArgs(argv), root);
            && (walk.Err? ==> out == Outcome([], Failed(walk.error)))
            && (walk.Ok? ==> Accounts(walk.value, read, out))
  {
    var args := GetArgs(argv);
    match GetFiles(args, root)
    case Err(e) =>
      return Outcome([], Failed(e));
    case Ok(files) =>
      out := CountFiles(files, read);
  }

  /** The report is a function of its inputs: two outcomes that both account
      for the same files and contents are equal, so an unchanged tree gives
      identical output. */
  lemma AccountsUnique(files: seq<Path>, read: Path -> Option<string>, o1: Outcome, o2: Outcome)
    requires Accounts(files, read, o1)
    requires Accounts(files, read, o2)
    ensures o1 == o2
  {
    assert |o1.rows| == |o2.rows|;
    assert o1.rows == o2.rows;
    if o1.ending.Failed? || o2.ending.Failed? {
      assert o1.ending.Failed? && o2.ending.Failed?;
    }
  }

  /** Once the walk has succeeded, counting fails exactly when some walked
      file cannot be read, and it stops at the first such file. */
  lemma FailsIffUnreadable(files: seq<Path>, read: Path -> Option<string>, out: Outcome)
    requires Accounts(files, read, out)
    ensures out.ending.Failed? <==> exists i :: 0 <= i < |files| && read(files[i]).None?
    ensures out.ending.Failed? ==>
              exists k :: 0 <= k < |files| && out.ending.error == UnreadableFile(files[k]) &&
                          read(files[k]).None? && forall i :: 0 <= i < k ==> read(files[i]).Some?
  {
  }

  /** A directory argument that names nothing, or names a file, is not an
      error: the run reports no rows and a total of zero. */
  lemma NothingToCount(argv: seq<string>, root: Option<Node>, read: Path -> Option<string>, out: Outcome)
    requires root.None? || root.value.File?
    requires Accounts(GetFiles(GetArgs(argv), root).value, read, out)
    ensures out == Outcome([], Total(0))
  {
  }
}

/** `load_dataframe_group`: check that every file of the group exists, read
    each recognised file with the reader its suffix selects, and stack the
    tables, retrying with per-table renamed columns when the stacking
    reports duplicate names. */
module Loader {
  import opened Results
  import opened Seqs
  import opened Text
  import opened Tables
  import opened Readers
  import opened Concat
  import opened Registry

  /** What the loader sees of the file system: which paths exist, and what
      the three readers produce for a path (a table, or the reason they fail). */
  datatype Disk = Disk(
    present: set<string>,
    readCsv: string -> Result<Table, string>,
    readExcel: string -> Result<Table, string>,
    readLines: string -> Result<seq<string>, string>)

  /** Why stacking the tables failed: duplicate names, or anything else. */
  datatype ConcatError = DuplicateNames | OtherConcatError(reason: string)

  /** Whether stacking these tables fails, and how. */
  type ConcatCheck = seq<Table> -> Option<ConcatError>

  datatype LoadError =
    | MissingFiles(paths: seq<string>)
    | ReadFailed(path: string, reason: string)
    | ConcatFailed(cause: ConcatError)

  /** The test "the path does not exist on `disk`". */
  function Absent(disk: Disk): string -> bool
  {
    p => p !in disk.present
  }

  /** The paths of the group that do not exist, in group order. */
  function Missing(paths: seq<string>, disk: Disk): (r: seq<string>)
    ensures forall p :: p in r <==> p in paths && p !in disk.present
  {
    Filter(paths, Absent(disk))
  }

  /** The test "some reader handles this path". */
  predicate Recognized(path: string)
  {
    Dispatch(path).Some?
  }

  /** Reads one file with the reader chosen for it. A `.rowout` file is read
      as text lines and parsed by the row-output reader. */
  function ReadOne(path: string, reader: Reader, disk: Disk): (r: Result<Table, LoadError>)
    ensures r.Failure? ==> r.error.ReadFailed? && r.error.path == path
    ensures reader == RowOut && r.Success? ==> |r.value.cols| > 0 && r.value.cols[0] == FileNameColumn && Distinct(r.value.cols)
    ensures reader == Delimited ==> (r.Success? <==> disk.readCsv(path).Success?)
    ensures reader == Delimited && r.Success? ==> r.value == disk.readCsv(path).value
    ensures reader == Delimited && r.Failure? ==> r.error.reason == disk.readCsv(path).error
    ensures reader == Spreadsheet ==> (r.Success? <==> disk.readExcel(path).Success?)
    ensures reader == Spreadsheet && r.Success? ==> r.value == disk.readExcel(path).value
    ensures reader == Spreadsheet && r.Failure? ==> r.error.reason == disk.readExcel(path).error
    ensures reader == RowOut ==>
      (r.Success? <==> disk.readLines(path).Success? && ReadRowOut(path, disk.readLines(path).value).Success?)
    ensures reader == RowOut && r.Success? ==> r.value == ReadRowOut(path, disk.readLines(path).value).value
  {
    match reader
    case Delimited =>
      (match disk.readCsv(path)
       case Failure(e) => Failure(ReadFailed(path, e))
       case Success(t) => Success(t))
    case Spreadsheet =>
      (match disk.readExcel(path)
       case Failure(e) => Failure(ReadFailed(path, e))
       case Success(t) => Success(t))
    case RowOut =>
      (match disk.readLines(path)
       case Failure(e) => Failure(ReadFailed(path, e))
       case Success(lines) =>
         match ReadRowOut(path, lines)
         case Failure(e) => Failure(ReadFailed(path, e))
         case Success(t) => Success(t))
  }

  /** One turn of the loop for one path: `None` when the path is skipped,
      otherwise the table read or the error that ends the load. */
  type FileStep = string -> Option<Result<Table, LoadError>>

  /** The loop body of `load_dataframe_group`: the reader the suffix selects,
      or `continue` when there is none. */
  function StepFor(disk: Disk): FileStep
  {
    p => match Dispatch(p)
         case None => None
         case Some(reader) => Some(ReadOne(p, reader, disk))
  }

  /** The test "the loop reads this path". */
  function Handled(step: FileStep): string -> bool
  {
    p => step(p).Some?
  }

  /** The paths the loop reads, in group order. */
  function ReadPaths(paths: seq<string>, step: FileStep): (r: seq<string>)
    ensures forall p :: p in r <==> p in paths && step(p).Some?
  {
    Filter(paths, Handled(step))
  }

  /** The loop over the group: skipped paths contribute nothing, the first
      read that fails ends the loop with its error, and otherwise there is one
      table per path read. */
  function Collect(paths: seq<string>, step: FileStep): (r: Result<seq<Table>, LoadError>)
    ensures r.Success? ==> |r.value| == |ReadPaths(paths, step)|
    ensures r.Failure? ==> ReadPaths(paths, step) != []
  {
    if paths == [] then Success([])
    else
      var p := paths[0];
      var rest := Collect(paths[1..], step);
      assert ReadPaths(paths, step) == (if step(p).Some? then [p] else []) + ReadPaths(paths[1..], step);
      match step(p)
      case None => rest
      case Some(Failure(e)) => Failure(e)
      case Some(Success(t)) =>
        match rest
        case Failure(e) => Failure(e)
        case Success(ts) => Success([t] + ts)
  }

  /** The stacking with its fallback: on duplicate names the columns of table
      `i` are renamed `c_i` and the stacking is tried once more; any other
      failure, and a failure of the second attempt, is passed on. */
  function Combine(dfs: seq<Table>, check: ConcatCheck): (r: Result<Table, LoadError>)
    ensures r.Success? ==> |r.value.rows| == TotalRows(dfs)
    ensures r.Success? ==> r.value == Concatenate(dfs) || r.value == Concatenate(RenameAll(dfs))
    ensures r.Success? ==> r.value == Concatenate(Stacked(dfs, check))
    ensures r.Success? <==> check(dfs) == None || (check(dfs) == Some(DuplicateNames) && check(RenameAll(dfs)) == None)
    ensures r.Failure? ==> r.error.ConcatFailed?
    ensures r.Failure? && check(dfs) != Some(DuplicateNames) ==> check(dfs) == Some(r.error.cause)
  {
    match check(dfs)
    case None => Success(Concatenate(dfs))
    case Some(DuplicateNames) =>
      var renamed := RenameAll(dfs);
      TotalRowsPointwise(dfs, renamed);
      (match check(renamed)
       case None => Success(Concatenate(renamed))
       case Some(e) => Failure(ConcatFailed(e)))
    case Some(e) => Failure(ConcatFailed(e))
  }

  /** The tables the successful stacking is made of: those read, or their
      renamed copies after a duplicate-names report. */
  function Stacked(dfs: seq<Table>, check: ConcatCheck): seq<Table>
  {
    if check(dfs) == None then dfs else RenameAll(dfs)
  }

  /** `load_dataframe_group`. `Success(None)` stands for the `None` it
      returns: an unknown or empty group, or a group without a readable
      suffix. A missing file is reported before any file is read. */
  function LoadGroup(reg: Groups, name: string, disk: Disk, check: ConcatCheck): (r: Result<Option<Table>, LoadError>)
    ensures name !in reg || reg[name] == [] ==> r == Success(None)
    ensures name in reg && Missing(reg[name], disk) != [] ==> r == Failure(MissingFiles(Missing(reg[name], disk)))
    ensures r.Success? && r.value.Some? ==> name in reg && Missing(reg[name], disk) == [] && Collect(reg[name], StepFor(disk)).Success?
    ensures r.Success? && r.value.Some? ==> |r.value.value.rows| == TotalRows(Collect(reg[name], StepFor(disk)).value)
    ensures r.Success? && r.value.Some? ==>
      var dfs := Collect(reg[name], StepFor(disk)).value;
      r.value.value == Concatenate(dfs) || r.value.value == Concatenate(RenameAll(dfs))
    ensures r.Success? && r.value.Some? ==>
      r.value.value == Concatenate(Stacked(Collect(reg[name], StepFor(disk)).value, check))
    ensures name in reg && Missing(reg[name], disk) == [] && ReadPaths(reg[name], StepFor(disk)) == [] ==>
      r == Success(None)
    ensures r.Success? && r.value.None? ==>
      name !in reg || reg[name] == [] || ReadPaths(reg[name], StepFor(disk)) == []
    ensures name in reg && Missing(reg[name], disk) == [] && Collect(reg[name], StepFor(disk)).Failure? ==>
      r == Failure(Collect(reg[name], StepFor(disk)).error)
    ensures (name in reg && Missing(reg[name], disk) == [] && Collect(reg[name], StepFor(disk)).Success? &&
             ReadPaths(reg[name], StepFor(disk)) != [] && Combine(Collect(reg[name], StepFor(disk)).value, check).Failure?) ==>
      r == Failure(Combine(Collect(reg[name], StepFor(disk)).value, check).error)
  {
    if name !in reg || reg[name] == [] then Success(None)
    else
      var paths := reg[name];
      var missing := Missing(paths, disk);
      if missing != [] then Failure(MissingFiles(missing))
      else
        match Collect(paths, StepFor(disk))
        case Failure(e) => Failure(e)
        case Success(dfs) =>
          if dfs == [] then Success(None)
          else
            match Combine(dfs, check)
            case Failure(e) => Failure(e)
            case Success(t) => Success(Some(t))
  }

  // ---------------------------------------------------------------------
  // Properties of the loader.

  /** The loop reads exactly the paths that have a reader. */
  lemma ReadPathsRecognized(paths: seq<string>, disk: Disk)
    ensures ReadPaths(paths, StepFor(disk)) == Filter(paths, Recognized)
  {
    FilterCongruent(paths, Handled(StepFor(disk)), Recognized);
  }

  /** One turn of the loop: a skipped path changes nothing, a read one puts
      its table in front of the rest. */
  lemma CollectStep(paths: seq<string>, step: FileStep)
    requires paths != []
    ensures step(paths[0]).None? ==>
      Collect(paths, step) == Collect(paths[1..], step) && ReadPaths(paths, step) == ReadPaths(paths[1..], step)
    ensures step(paths[0]).Some? ==> ReadPaths(paths, step) == [paths[0]] + ReadPaths(paths[1..], step)
    ensures step(paths[0]).Some? && Collect(paths, step).Success? ==>
      step(paths[0]).value.Success? && Collect(paths[1..], step).Success? &&
      Collect(paths, step).value == [step(paths[0]).value.value] + Collect(paths[1..], step).value
  {
  }

  /** The `i`-th table is what reading the `i`-th path read gives. */
  lemma {:induction false} CollectInOrder(paths: seq<string>, step: FileStep, i: nat)
    requires Collect(paths, step).Success? && i < |Collect(paths, step).value|
    ensures step(ReadPaths(paths, step)[i]) == Some(Success(Collect(paths, step).value[i]))
  {
    CollectStep(paths, step);
    var p := paths[0];
    if step(p).None? {
      CollectInOrder(paths[1..], step, i);
    } else {
      var rp := ReadPaths(paths[1..], step);
      var ts := Collect(paths[1..], step).value;
      var t := step(p).value.value;
      assert ReadPaths(paths, step) == [p] + rp;
      assert Collect(paths, step).value == [t] + ts;
      if i > 0 {
        CollectInOrder(paths[1..], step, i - 1);
        assert ([p] + rp)[i] == rp[i - 1];
        assert ([t] + ts)[i] == ts[i - 1];
      }
    }
  }

  /** A failed loop reports the error of the first path whose read fails;
      every path read before it was read successfully. */
  lemma {:induction false} CollectFailure(paths: seq<string>, step: FileStep) returns (k: nat)
    requires Collect(paths, step).Failure?
    ensures k < |paths| && step(paths[k]) == Some(Failure(Collect(paths, step).error))
    ensures forall j :: 0 <= j < k && step(paths[j]).Some? ==> step(paths[j]).value.Success?
  {
    CollectStep(paths, step);
    var p := paths[0];
    if step(p).Some? && step(p).value.Failure? {
      k := 0;
    } else {
      var k' := CollectFailure(paths[1..], step);
      k := k' + 1;
      forall j | 0 < j < k
        ensures paths[j] == paths[1..][j - 1]
      {
      }
    }
  }

  /** Whether a group loads, and into what, depends only on the paths the
      loop reads: the skipped ones can be dropped beforehand. */
  lemma {:induction false} CollectSkipsUnread(paths: seq<string>, step: FileStep)
    ensures Collect(paths, step) == Collect(ReadPaths(paths, step), step)
  {
    if paths != [] {
      var p := paths[0];
      CollectSkipsUnread(paths[1..], step);
      if step(p).Some? {
        var rp := ReadPaths(paths, step);
        assert rp == [p] + ReadPaths(paths[1..], step);
        assert rp[0] == p && rp[1..] == ReadPaths(paths[1..], step);
      }
    }
  }

  /** The loop succeeds exactly when every path it reads reads. */
  lemma {:induction false} CollectSucceedsIff(paths: seq<string>, step: FileStep)
    ensures Collect(paths, step).Success? <==>
      forall p :: p in paths && step(p).Some? ==> step(p).value.Success?
  {
    if paths != [] {
      CollectSucceedsIff(paths[1..], step);
      assert forall p :: p in paths <==> p == paths[0] || p in paths[1..];
    }
  }

  /** A read error names a file of the group that has a reader and whose
      read failed that way. */
  lemma LoadReadError(reg: Groups, name: string, disk: Disk, check: ConcatCheck)
    requires LoadGroup(reg, name, disk, check).Failure?
    requires LoadGroup(reg, name, disk, check).error.ReadFailed?
    ensures var e := LoadGroup(reg, name, disk, check).error;
      e.path in reg[name] && Recognized(e.path) && ReadOne(e.path, Dispatch(e.path).value, disk) == Failure(e)
  {
    var step := StepFor(disk);
    var k := CollectFailure(reg[name], step);
    var p := reg[name][k];
    assert step(p) == Some(ReadOne(p, Dispatch(p).value, disk));
  }

  /** When a file is missing, nothing is read and stacking is never tried:
      the outcome is the same whatever the readers would have produced. */
  lemma MissingDecidedBeforeReading(reg: Groups, name: string, d1: Disk, d2: Disk, c1: ConcatCheck, c2: ConcatCheck)
    requires d1.present == d2.present
    requires name in reg && Missing(reg[name], d1) != []
    ensures LoadGroup(reg, name, d1, c1) == LoadGroup(reg, name, d2, c2)
  {
    assert Absent(d1) == Absent(d2);
  }

  /** A group loads to a table exactly when all its files exist, every
      readable one reads, at least one is readable, and stacking (or its
      retry) succeeds. */
  lemma LoadGroupSomeIff(reg: Groups, name: string, disk: Disk, check: ConcatCheck)
    ensures (LoadGroup(reg, name, disk, check).Success? && LoadGroup(reg, name, disk, check).value.Some?) <==>
      (name in reg && Missing(reg[name], disk) == [] && Collect(reg[name], StepFor(disk)).Success?
       && ReadPaths(reg[name], StepFor(disk)) != [] && Combine(Collect(reg[name], StepFor(disk)).value, check).Success?)
  {
  }

  /** Without a reported failure the tables are stacked as read; the renamed
      retry happens only after a duplicate-names report. */
  lemma FallbackOnlyOnDuplicateNames(dfs: seq<Table>, check: ConcatCheck)
    ensures check(dfs) == None ==> Combine(dfs, check) == Success(Concatenate(dfs))
    ensures check(dfs) == Some(DuplicateNames) && check(RenameAll(dfs)) == None ==>
      Combine(dfs, check) == Success(Concatenate(RenameAll(dfs)))
    ensures check(dfs).Some? && check(dfs) != Some(DuplicateNames) ==>
      Combine(dfs, check) == Failure(ConcatFailed(check(dfs).value))
    ensures check(dfs) == Some(DuplicateNames) && check(RenameAll(dfs)).Some? ==>
      Combine(dfs, check) == Failure(ConcatFailed(check(RenameAll(dfs)).value))
  {
  }

  /** After the renamed retry every input column survives under its own
      name: there are as many columns as the inputs have together. */
  lemma FallbackKeepsEveryColumn(dfs: seq<Table>, check: ConcatCheck)
    requires forall i :: 0 <= i < |dfs| ==> Distinct(dfs[i].cols)
    requires check(dfs) == Some(DuplicateNames) && check(RenameAll(dfs)) == None
    ensures Combine(dfs, check).value.cols == AllColumns(RenameAll(dfs))
    ensures |Combine(dfs, check).value.cols| == TotalCols(dfs)
  {
    RenamedConcatShape(dfs);
  }

  /** Row `j` of the `i`-th table read lands at row `Offset(dfs, i) + j` of
      the loaded table, with each column's value carried over by name; after
      the renamed retry the names are those of the renamed copy. */
  lemma LoadedRowsInFileOrder(dfs: seq<Table>, check: ConcatCheck, i: nat, j: nat)
    requires Combine(dfs, check).Success?
    requires i < |dfs| && j < |dfs[i].rows|
    ensures Offset(dfs, i) + j < |Combine(dfs, check).value.rows|
    ensures Combine(dfs, check).value.rows[Offset(dfs, i) + j] ==
      Project(dfs[i].rows[j], Stacked(dfs, check)[i].cols, Combine(dfs, check).value.cols)
  {
    if check(dfs) == None {
      RowPlacement(dfs, UnionColumns(dfs), i, j);
    } else {
      var ts := RenameAll(dfs);
      assert Combine(dfs, check).value == Concatenate(ts);
      RowPlacement(ts, UnionColumns(ts), i, j);
      TotalRowsPointwise(ts[..i], dfs[..i]);
    }
  }

  /** Stacking keeps columns in order of first appearance: a table with
      `x, y` followed by a `.rowout` table with `FILE_NAME, x, y` stacks to
      `x, y, FILE_NAME`, so `FILE_NAME` is not moved to the front. */
  lemma StackedColumnOrder(a: Table, b: Table)
    requires a.cols == ["x", "y"] && b.cols == [FileNameColumn, "x", "y"]
    ensures Concatenate([a, b]).cols == ["x", "y", FileNameColumn]
  {
    var f := FileNameColumn;
    assert [a, b][1..] == [b];
    assert AllColumns([b]) == b.cols;
    assert AllColumns([a, b]) == ["x", "y", f, "x", "y"];
    DedupOfRepeatedPair("x", "y", f);
  }

  /** Every table read from a `.rowout` file has the file-name column first
      and no repeated column, so the renamed retry keeps all of its columns. */
  lemma RowOutTableShape(paths: seq<string>, disk: Disk, i: nat)
    requires Collect(paths, StepFor(disk)).Success?
    requires i < |Collect(paths, StepFor(disk)).value|
    requires Dispatch(ReadPaths(paths, StepFor(disk))[i]) == Some(RowOut)
    ensures var t := Collect(paths, StepFor(disk)).value[i];
      |t.cols| > 0 && t.cols[0] == FileNameColumn && Distinct(t.cols)
  {
    var step := StepFor(disk);
    var p := ReadPaths(paths, step)[i];
    CollectInOrder(paths, step, i);
    assert step(p) == Some(ReadOne(p, RowOut, disk));
  }
}

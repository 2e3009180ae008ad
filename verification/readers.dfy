/** Format dispatch and the whitespace-delimited `.rowout` log reader. The
    delimited-text and spreadsheet parsers belong to pandas and are supplied
    to the loader as already-parsed tables. */
module Readers {
  import opened Results
  import opened Seqs
  import opened Text
  import opened Tables

  datatype Reader = Delimited | Spreadsheet | RowOut

  /** Chooses a reader from the suffix of the lower-cased path; `None` means
      the file is skipped. */
  function Dispatch(path: string): (r: Option<Reader>)
    ensures r == Some(Delimited) <==> EndsWith(Lower(path), ".csv")
    ensures r == Some(Spreadsheet) <==> EndsWith(Lower(path), ".xls") || EndsWith(Lower(path), ".xlsx")
    ensures r == Some(RowOut) <==> EndsWith(Lower(path), ".rowout")
  {
    var p := Lower(path);
    LastCharOfSuffix(p, ".csv");
    LastCharOfSuffix(p, ".xls");
    LastCharOfSuffix(p, ".xlsx");
    LastCharOfSuffix(p, ".rowout");
    if EndsWith(p, ".csv") then Some(Delimited)
    else if EndsWith(p, ".xls") || EndsWith(p, ".xlsx") then Some(Spreadsheet)
    else if EndsWith(p, ".rowout") then Some(RowOut)
    else None
  }

  lemma LastCharOfSuffix(s: string, suffix: string)
    requires suffix != []
    ensures EndsWith(s, suffix) ==> s[|s| - 1] == suffix[|suffix| - 1]
  {
    if EndsWith(s, suffix) {
      assert s[|s| - 1] == s[|s| - |suffix|..][|suffix| - 1];
    }
  }

  lemma EndsWithExtend(prefix: string, s: string, suffix: string)
    requires |suffix| <= |s|
    ensures EndsWith(prefix + s, suffix) <==> EndsWith(s, suffix)
  {
    var ps := prefix + s;
    assert ps[|ps| - |suffix|..] == s[|s| - |suffix|..];
  }

  /** The reader depends on the last seven characters only: nothing before
      them (directory, stem) can change it. */
  lemma DispatchDependsOnSuffixOnly(prefix: string, path: string)
    requires |path| >= |".rowout"|
    ensures Dispatch(prefix + path) == Dispatch(path)
  {
    LowerAppend(prefix, path);
    var lp := Lower(prefix);
    var l := Lower(path);
    EndsWithExtend(lp, l, ".csv");
    EndsWithExtend(lp, l, ".xls");
    EndsWithExtend(lp, l, ".xlsx");
    EndsWithExtend(lp, l, ".rowout");
  }

  /** Letter case never changes the reader. */
  lemma DispatchIgnoresCase(path: string)
    ensures Dispatch(Lower(path)) == Dispatch(path)
  {
    LowerIdempotent(path);
  }

  /** The provenance column the `.rowout` reader adds. */
  const FileNameColumn: string := "FILE_NAME"

  function NotFileName(h: string): bool
  {
    h != FileNameColumn
  }

  /** The column names of a `.rowout` file: its first line split on whitespace. */
  function HeaderOf(lines: seq<string>): (r: seq<string>)
    ensures forall k :: 0 <= k < |r| ==> WordFree(r[k], PyWhitespace)
    ensures r == [] <==> lines == [] || forall i :: 0 <= i < |lines[0]| ==> lines[0][i] in PyWhitespace
  {
    if lines == [] then []
    else
      TokensEmpty(lines[0], PyWhitespace);
      Tokens(lines[0], PyWhitespace)
  }

  function NonBlank(line: string): bool
  {
    Tokens(line, FieldSeparators) != []
  }

  /** The lines that become rows: every line after the header that holds a
      field (the parser skips blank lines). */
  function DataLines(lines: seq<string>): (r: seq<string>)
    ensures lines == [] ==> r == []
    ensures lines != [] ==> |r| < |lines|
    ensures lines != [] ==> forall l :: l in r <==> l in lines[1..] && NonBlank(l)
  {
    if lines == [] then [] else Filter(lines[1..], NonBlank)
  }

  /** A trailing line without any field adds no row. */
  lemma DataLinesSkipBlank(lines: seq<string>, extra: string)
    requires lines != [] && !NonBlank(extra)
    ensures DataLines(lines + [extra]) == DataLines(lines)
  {
    assert (lines + [extra])[1..] == lines[1..] + [extra];
    FilterAppend(lines[1..], [extra], NonBlank);
    assert Filter([extra], NonBlank) == [];
  }

  /** One cell per header: the line's fields in order, padded with missing
      cells when the line is short and cut when it is long. */
  function Fit(fields: seq<string>, n: nat): (r: Row)
    ensures |r| == n
    ensures forall k :: 0 <= k < n ==> r[k] == if k < |fields| then Str(fields[k]) else Null
  {
    seq(n, k requires 0 <= k < n => if k < |fields| then Str(fields[k]) else Null)
  }

  /** The entries of `xs` whose header is not FILE_NAME. */
  function Select<T>(xs: seq<T>, headers: seq<string>): (r: seq<T>)
    requires |xs| == |headers|
    ensures |r| == |Filter(headers, NotFileName)|
  {
    if xs == [] then []
    else (if NotFileName(headers[0]) then [xs[0]] else []) + Select(xs[1..], headers[1..])
  }

  lemma {:induction false} SelectHeaders(headers: seq<string>)
    ensures Select(headers, headers) == Filter(headers, NotFileName)
  {
    if headers != [] {
      SelectHeaders(headers[1..]);
    }
  }

  lemma KeptBeforeStep(headers: seq<string>, k: nat)
    requires 0 < k <= |headers|
    ensures |Filter(headers[..k], NotFileName)|
         == (if NotFileName(headers[0]) then 1 else 0) + |Filter(headers[1..][..k - 1], NotFileName)|
  {
    var before := headers[..k];
    assert before[0] == headers[0];
    assert before[1..] == headers[1..][..k - 1];
  }

  lemma SelectStep<T>(xs: seq<T>, headers: seq<string>)
    requires |xs| == |headers| && xs != []
    ensures Select(xs, headers) == (if NotFileName(headers[0]) then [xs[0]] else []) + Select(xs[1..], headers[1..])
  {
  }

  /** The entry under header `k` lands right after the kept entries before it. */
  lemma {:induction false} SelectAt<T>(xs: seq<T>, headers: seq<string>, k: nat)
    requires |xs| == |headers| && k < |headers| && NotFileName(headers[k])
    ensures |Filter(headers[..k], NotFileName)| < |Select(xs, headers)|
    ensures Select(xs, headers)[|Filter(headers[..k], NotFileName)|] == xs[k]
  {
    SelectStep(xs, headers);
    var h := if NotFileName(headers[0]) then [xs[0]] else [];
    var rest := Select(xs[1..], headers[1..]);
    if k == 0 {
      assert headers[..0] == [];
    } else {
      SelectAt(xs[1..], headers[1..], k - 1);
      KeptBeforeStep(headers, k);
      var j' := |Filter(headers[1..][..k - 1], NotFileName)|;
      assert rest[j'] == xs[1..][k - 1] == xs[k];
      assert (h + rest)[|h| + j'] == rest[j'];
    }
  }

  /** The row read from one data line: the file's stem under FILE_NAME, then
      the line's fields under every other header. */
  function ParseRow(stem: string, headers: seq<string>, line: string): (r: Row)
    ensures |r| == 1 + |Filter(headers, NotFileName)|
  {
    [Str(stem)] + Select(Fit(Tokens(line, FieldSeparators), |headers|), headers)
  }

  function ParseRows(stem: string, headers: seq<string>, data: seq<string>): (r: seq<Row>)
    ensures |r| == |data|
    ensures forall i :: 0 <= i < |r| ==> |r[i]| == 1 + |Filter(headers, NotFileName)| && r[i][0] == Str(stem)
  {
    seq(|data|, i requires 0 <= i < |data| => ParseRow(stem, headers, data[i]))
  }

  /** The table of a `.rowout` log with a usable header. */
  function RowOutTable(stem: string, headers: seq<string>, data: seq<string>): (t: Table)
    requires Distinct(headers)
    ensures t.cols == [FileNameColumn] + Filter(headers, NotFileName)
    ensures Distinct(t.cols)
    ensures |t.rows| == |data|
    ensures forall i :: 0 <= i < |t.rows| ==> t.rows[i][0] == Str(stem)
  {
    var others := Filter(headers, NotFileName);
    FilterDistinct(headers, NotFileName);
    DistinctAppend([FileNameColumn], others);
    Frame([FileNameColumn] + others, ParseRows(stem, headers, data))
  }

  /** Reads a `.rowout` log given its lines. The header line must name at
      least one column and no column twice (pandas refuses both). */
  function ReadRowOut(path: string, lines: seq<string>): (r: Result<Table, string>)
    ensures r.Failure? <==> HeaderOf(lines) == [] || !Distinct(HeaderOf(lines))
    ensures r.Success? ==> r.value.cols == [FileNameColumn] + Filter(HeaderOf(lines), NotFileName)
    ensures r.Success? ==> Distinct(r.value.cols)
    ensures r.Success? ==> |r.value.rows| == |DataLines(lines)|
    ensures r.Success? ==> forall i :: 0 <= i < |r.value.rows| ==> r.value.rows[i][0] == Str(Stem(Basename(path)))
  {
    var headers := HeaderOf(lines);
    if headers == [] then Failure("no columns to parse from file")
    else if !Distinct(headers) then Failure("duplicate names are not allowed")
    else Success(RowOutTable(Stem(Basename(path)), headers, DataLines(lines)))
  }

  /** Every data field lands under its own header: the field at position `k`
      of data line `i` is the cell of the column named `headers[k]`, or a
      missing cell when the line is too short. */
  lemma RowOutCell(path: string, lines: seq<string>, i: nat, k: nat)
    requires ReadRowOut(path, lines).Success?
    requires i < |DataLines(lines)| && k < |HeaderOf(lines)| && NotFileName(HeaderOf(lines)[k])
    ensures var t := ReadRowOut(path, lines).value;
            var headers := HeaderOf(lines);
            var fields := Tokens(DataLines(lines)[i], FieldSeparators);
            var col := 1 + |Filter(headers[..k], NotFileName)|;
            col < |t.cols| && t.cols[col] == headers[k]
            && t.rows[i][col] == if k < |fields| then Str(fields[k]) else Null
  {
    var headers := HeaderOf(lines);
    var fields := Tokens(DataLines(lines)[i], FieldSeparators);
    SelectHeaders(headers);
    SelectAt(headers, headers, k);
    SelectAt(Fit(fields, |headers|), headers, k);
  }

  /** Without a FILE_NAME header the columns are FILE_NAME and then the
      header line's tokens, untouched. */
  lemma RowOutColumnsWithoutFileNameHeader(path: string, lines: seq<string>)
    requires ReadRowOut(path, lines).Success?
    requires FileNameColumn !in HeaderOf(lines)
    ensures ReadRowOut(path, lines).value.cols == [FileNameColumn] + HeaderOf(lines)
  {
    FilterIdentity(HeaderOf(lines), NotFileName);
  }
}

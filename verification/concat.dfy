/** Name-aligned concatenation of tables (pandas' `concat` with a fresh row
    index) and the column renaming used when that concatenation fails on
    duplicate names. */
module Concat {
  import opened Seqs
  import opened Text
  import opened Tables

  /** The columns of the combined table: every name of every input once, in
      order of first appearance. */
  function UnionColumns(ts: seq<Table>): (r: seq<string>)
    ensures Distinct(r)
    ensures forall c :: c in r <==> exists i :: 0 <= i < |ts| && c in ts[i].cols
  {
    Dedup(AllColumns(ts))
  }

  /** The value a row holds under column `name`, missing when it has no such column. */
  function Cell(row: Row, cols: seq<string>, name: string): Value
    requires |row| == |cols|
  {
    if name in cols then row[IndexOf(cols, name)] else Null
  }

  /** A row laid out again under the columns `target`. */
  function Project(row: Row, cols: seq<string>, target: seq<string>): (r: Row)
    requires |row| == |cols|
    ensures |r| == |target|
  {
    seq(|target|, k requires 0 <= k < |target| => Cell(row, cols, target[k]))
  }

  function AlignRows(t: Table, target: seq<string>): (r: seq<Row>)
    ensures |r| == |t.rows|
    ensures forall j :: 0 <= j < |r| ==> r[j] == Project(t.rows[j], t.cols, target)
  {
    seq(|t.rows|, j requires 0 <= j < |t.rows| => Project(t.rows[j], t.cols, target))
  }

  /** The rows of every table in turn, each laid out under `target`. */
  function ConcatRows(ts: seq<Table>, target: seq<string>): (r: seq<Row>)
    ensures |r| == TotalRows(ts)
    ensures forall j :: 0 <= j < |r| ==> |r[j]| == |target|
  {
    if ts == [] then [] else AlignRows(ts[0], target) + ConcatRows(ts[1..], target)
  }

  /** `pd.concat(dfs, ignore_index=True)` when it succeeds. */
  function Concatenate(ts: seq<Table>): (r: Table)
    ensures r.cols == UnionColumns(ts)
    ensures |r.rows| == TotalRows(ts)
  {
    var u := UnionColumns(ts);
    Frame(u, ConcatRows(ts, u))
  }

  /** The rows of the tables before table `i`. */
  function Offset(ts: seq<Table>, i: nat): nat
    requires i <= |ts|
  {
    TotalRows(ts[..i])
  }

  lemma {:induction false} TotalRowsAppend(a: seq<Table>, b: seq<Table>)
    ensures TotalRows(a + b) == TotalRows(a) + TotalRows(b)
  {
    if a != [] {
      assert (a + b)[1..] == a[1..] + b;
      TotalRowsAppend(a[1..], b);
    } else {
      assert a + b == b;
    }
  }

  /** Concatenating two runs of tables concatenates their row blocks. */
  lemma {:induction false} ConcatRowsAppend(a: seq<Table>, b: seq<Table>, target: seq<string>)
    ensures ConcatRows(a + b, target) == ConcatRows(a, target) + ConcatRows(b, target)
  {
    if a == [] {
      assert a + b == b;
    } else {
      assert (a + b)[0] == a[0];
      assert (a + b)[1..] == a[1..] + b;
      ConcatRowsAppend(a[1..], b, target);
    }
  }

  /** Row `j` of table `i` sits at position `Offset(ts, i) + j` of the
      combined rows: file order first, then order within the file. */
  lemma RowPlacement(ts: seq<Table>, target: seq<string>, i: nat, j: nat)
    requires i < |ts| && j < |ts[i].rows|
    ensures Offset(ts, i) + j < |ConcatRows(ts, target)|
    ensures ConcatRows(ts, target)[Offset(ts, i) + j] == Project(ts[i].rows[j], ts[i].cols, target)
  {
    assert ts == ts[..i] + ts[i..];
    ConcatRowsAppend(ts[..i], ts[i..], target);
    TotalRowsAppend(ts[..i], ts[i..]);
    assert ts[i..][0] == ts[i];
  }

  /** A cell of the combined table: the source row's value under that column
      name, or a missing cell when the source table has no such column. */
  lemma ConcatCell(ts: seq<Table>, i: nat, j: nat, k: nat)
    requires i < |ts| && j < |ts[i].rows| && k < |UnionColumns(ts)|
    ensures var r := Concatenate(ts);
            var name := r.cols[k];
            Offset(ts, i) + j < |r.rows|
            && r.rows[Offset(ts, i) + j][k]
               == if name in ts[i].cols then ts[i].rows[j][IndexOf(ts[i].cols, name)] else Null
  {
    RowPlacement(ts, UnionColumns(ts), i, j);
  }

  /** Appending names already present changes nothing in the first-appearance order. */
  lemma {:induction false} DedupAbsorbs(xs: seq<string>, ys: seq<string>)
    requires forall y :: y in ys ==> y in xs
    ensures Dedup(xs + ys) == Dedup(xs)
  {
    if ys != [] {
      var init := ys[..|ys| - 1];
      assert (xs + ys)[..|xs + ys| - 1] == xs + init;
      DedupAbsorbs(xs, init);
    } else {
      assert xs + ys == xs;
    }
  }

  /** Every table has the columns `header`. */
  predicate SameSchema(ts: seq<Table>, header: seq<string>)
  {
    forall i :: 0 <= i < |ts| ==> ts[i].cols == header
  }

  /** The rows of every table in turn, unchanged. */
  function StackRows(ts: seq<Table>): seq<Row>
  {
    if ts == [] then [] else ts[0].rows + StackRows(ts[1..])
  }

  lemma ProjectOntoOwnColumns(row: Row, cols: seq<string>)
    requires |row| == |cols| && Distinct(cols)
    ensures Project(row, cols, cols) == row
  {
    forall k | 0 <= k < |cols|
      ensures Project(row, cols, cols)[k] == row[k]
    {
      assert IndexOf(cols, cols[k]) == k;
    }
  }

  lemma {:induction false} SameSchemaRows(ts: seq<Table>, header: seq<string>)
    requires SameSchema(ts, header) && Distinct(header)
    ensures ConcatRows(ts, header) == StackRows(ts)
  {
    if ts != [] {
      forall j | 0 <= j < |ts[0].rows|
        ensures Project(ts[0].rows[j], ts[0].cols, header) == ts[0].rows[j]
      {
        ProjectOntoOwnColumns(ts[0].rows[j], header);
      }
      SameSchemaRows(ts[1..], header);
    }
  }

  lemma {:induction false} SameSchemaColumns(ts: seq<Table>, header: seq<string>)
    requires ts != [] && SameSchema(ts, header)
    ensures forall c :: c in AllColumns(ts[1..]) ==> c in header
  {
  }

  /** Tables that share one duplicate-free header concatenate to that header
      over all their rows, table after table. */
  lemma SameSchemaConcat(ts: seq<Table>, header: seq<string>)
    requires ts != [] && SameSchema(ts, header) && Distinct(header)
    ensures Concatenate(ts) == Frame(header, StackRows(ts))
  {
    SameSchemaColumns(ts, header);
    DedupAbsorbs(header, AllColumns(ts[1..]));
    DedupOfDistinct(header);
    assert AllColumns(ts) == header + AllColumns(ts[1..]);
    SameSchemaRows(ts, header);
  }

  /** A single table with duplicate-free columns concatenates to itself. */
  lemma ConcatSingle(t: Table)
    requires Distinct(t.cols)
    ensures Concatenate([t]) == t
  {
    SameSchemaConcat([t], t.cols);
  }

  /** The name column `c` of input table `i` gets in the fallback: `c_i`. */
  function Suffixed(c: string, i: nat): string
  {
    c + "_" + NatToString(i)
  }

  /** A renamed column starts with its old name, and the text after its last
      `_` reads back as the table index. */
  lemma SuffixedReadsBack(c: string, i: nat)
    ensures |Suffixed(c, i)| > |c| && Suffixed(c, i)[..|c|] == c
    ensures AfterLast(Suffixed(c, i), '_') == NatToString(i)
    ensures ParseNat(AfterLast(Suffixed(c, i), '_')) == i
  {
    AfterLastOfSuffixed(c, '_', NatToString(i));
    ParseNatToString(i);
  }

  /** No two (column, table) pairs get the same new name: the text after the
      last `_` is the table index, the text before it the old name. */
  lemma SuffixedInjective(c1: string, i: nat, c2: string, j: nat)
    requires Suffixed(c1, i) == Suffixed(c2, j)
    ensures c1 == c2 && i == j
  {
    var s1 := NatToString(i);
    var s2 := NatToString(j);
    assert '_' !in s1 && '_' !in s2;
    SplitAtLastSeparator(c1, s1, c2, s2, '_');
    NatToStringInjective(i, j);
  }

  /** Table `i` with every column `c` renamed to `c_i`; its rows untouched. */
  function RenameColumns(t: Table, i: nat): (r: Table)
    ensures |r.cols| == |t.cols| && r.rows == t.rows
    ensures forall k :: 0 <= k < |t.cols| ==> r.cols[k] == Suffixed(t.cols[k], i)
  {
    Frame(seq(|t.cols|, k requires 0 <= k < |t.cols| => Suffixed(t.cols[k], i)), t.rows)
  }

  /** The fallback's inputs: every table renamed after its position. */
  function RenameAll(ts: seq<Table>): (r: seq<Table>)
    ensures |r| == |ts|
    ensures forall i :: 0 <= i < |ts| ==> r[i] == RenameColumns(ts[i], i)
  {
    seq(|ts|, i requires 0 <= i < |ts| => RenameColumns(ts[i], i))
  }

  predicate Disjoint(a: seq<string>, b: seq<string>)
  {
    forall c :: c in a ==> c !in b
  }

  /** Renaming keeps the names of one table apart. */
  lemma RenamedDistinct(t: Table, i: nat)
    requires Distinct(t.cols)
    ensures Distinct(RenameColumns(t, i).cols)
  {
    var r := RenameColumns(t, i);
    forall a, b | 0 <= a < b < |r.cols|
      ensures r.cols[a] != r.cols[b]
    {
      if r.cols[a] == r.cols[b] {
        SuffixedInjective(t.cols[a], i, t.cols[b], i);
      }
    }
  }

  /** After renaming, no two input tables share a column name. */
  lemma RenamedDisjoint(ts: seq<Table>, i: nat, j: nat)
    requires i < |ts| && j < |ts| && i != j
    ensures Disjoint(RenameAll(ts)[i].cols, RenameAll(ts)[j].cols)
  {
    var a := RenameAll(ts)[i].cols;
    var b := RenameAll(ts)[j].cols;
    forall c | c in a
      ensures c !in b
    {
      var x :| 0 <= x < |a| && a[x] == c;
      if c in b {
        var y :| 0 <= y < |b| && b[y] == c;
        SuffixedInjective(ts[i].cols[x], i, ts[j].cols[y], j);
      }
    }
  }

  lemma TotalColsRename(ts: seq<Table>)
    ensures TotalCols(RenameAll(ts)) == TotalCols(ts)
  {
    TotalColsPointwise(RenameAll(ts), ts);
  }

  lemma {:induction false} TotalColsPointwise(a: seq<Table>, b: seq<Table>)
    requires |a| == |b| && forall i :: 0 <= i < |a| ==> |a[i].cols| == |b[i].cols|
    ensures TotalCols(a) == TotalCols(b)
  {
    if a != [] {
      TotalColsPointwise(a[1..], b[1..]);
    }
  }

  lemma {:induction false} TotalRowsPointwise(a: seq<Table>, b: seq<Table>)
    requires |a| == |b| && forall i :: 0 <= i < |a| ==> |a[i].rows| == |b[i].rows|
    ensures TotalRows(a) == TotalRows(b)
  {
    if a != [] {
      TotalRowsPointwise(a[1..], b[1..]);
    }
  }

  /** Tables whose own names are duplicate-free and which share no name list
      every column exactly once between them. */
  lemma {:induction false} AllColumnsDistinct(ts: seq<Table>)
    requires forall i :: 0 <= i < |ts| ==> Distinct(ts[i].cols)
    requires forall i, j :: 0 <= i < |ts| && 0 <= j < |ts| && i != j ==> Disjoint(ts[i].cols, ts[j].cols)
    ensures Distinct(AllColumns(ts))
  {
    if ts != [] {
      var rest := ts[1..];
      forall i, j | 0 <= i < |rest| && 0 <= j < |rest| && i != j
        ensures Disjoint(rest[i].cols, rest[j].cols)
      {
        assert rest[i] == ts[i + 1] && rest[j] == ts[j + 1];
      }
      AllColumnsDistinct(rest);
      forall c | c in ts[0].cols
        ensures c !in AllColumns(rest)
      {
        forall i | 0 <= i < |rest|
          ensures c !in rest[i].cols
        {
          assert Disjoint(ts[0].cols, ts[i + 1].cols);
        }
      }
      DistinctAppend(ts[0].cols, AllColumns(rest));
    }
  }

  /** The fallback never merges columns: when every input's own names are
      duplicate-free, the renamed tables concatenate to exactly their columns
      side by side, as many as all inputs have together, over as many rows
      as all inputs have together. */
  lemma RenamedConcatShape(ts: seq<Table>)
    requires forall i :: 0 <= i < |ts| ==> Distinct(ts[i].cols)
    ensures Concatenate(RenameAll(ts)).cols == AllColumns(RenameAll(ts))
    ensures |Concatenate(RenameAll(ts)).cols| == TotalCols(ts)
    ensures |Concatenate(RenameAll(ts)).rows| == TotalRows(ts)
  {
    var rs := RenameAll(ts);
    forall i | 0 <= i < |rs|
      ensures Distinct(rs[i].cols)
    {
      RenamedDistinct(ts[i], i);
    }
    forall i, j | 0 <= i < |rs| && 0 <= j < |rs| && i != j
      ensures Disjoint(rs[i].cols, rs[j].cols)
    {
      RenamedDisjoint(ts, i, j);
    }
    AllColumnsDistinct(rs);
    DedupOfDistinct(AllColumns(rs));
    TotalColsRename(ts);
    TotalRowsPointwise(rs, ts);
  }
}

/** The null-handling policy applied to a combined table before it is stored. */
module NullPolicy {
  import opened Results
  import opened Seqs
  import opened Tables

  predicate Complete(row: Row)
  {
    !HasNull(row)
  }

  /** `dropna()`: keeps exactly the rows that contain no missing cell. */
  function DropNullRows(t: Table): (r: Table)
    ensures r.cols == t.cols
    ensures NullFree(r)
    ensures |r.rows| <= |t.rows|
    ensures forall row :: row in r.rows <==> row in t.rows && !HasNull(row)
  {
    var kept := Filter(t.rows, Complete);
    assert forall i :: 0 <= i < |kept| ==> kept[i] in t.rows;
    Frame(t.cols, kept)
  }

  function FillCell(v: Value): Value
  {
    if v == Null then Zero else v
  }

  /** `fillna(0)`: every missing cell becomes zero, every other cell stays. */
  function FillZero(t: Table): (r: Table)
    ensures r.cols == t.cols && |r.rows| == |t.rows|
    ensures forall i :: 0 <= i < |r.rows| ==> |r.rows[i]| == |t.rows[i]|
    ensures forall i, k :: 0 <= i < |t.rows| && 0 <= k < |t.rows[i]| ==>
      r.rows[i][k] == (if t.rows[i][k] == Null then Zero else t.rows[i][k])
    ensures NullFree(r)
  {
    Frame(t.cols, seq(|t.rows|, i requires 0 <= i < |t.rows| =>
      seq(|t.rows[i]|, k requires 0 <= k < |t.rows[i]| => FillCell(t.rows[i][k]))))
  }

  /** `process_dataframe`: no table gives no table; "drop" and "zero" pick the
      two policies above; every other policy name leaves the table as it is. */
  function Process(t: Option<Table>, policy: string): (r: Option<Table>)
    ensures r.Some? <==> t.Some?
    ensures r.Some? ==> r.value.cols == t.value.cols
    ensures r.Some? && (policy == "drop" || policy == "zero") ==> NullFree(r.value)
    ensures r.Some? && policy == "drop" ==> |r.value.rows| <= |t.value.rows|
    ensures r.Some? && policy == "zero" ==> |r.value.rows| == |t.value.rows|
    ensures policy != "drop" && policy != "zero" ==> r == t
    ensures r.Some? && policy == "drop" ==> r.value == DropNullRows(t.value)
    ensures r.Some? && policy == "zero" ==> r.value == FillZero(t.value)
  {
    match t
    case None => None
    case Some(table) =>
      if policy == "drop" then Some(DropNullRows(table))
      else if policy == "zero" then Some(FillZero(table))
      else t
  }

  /** Each row survives "drop" exactly as often as it occurs, or not at all
      when it holds a missing cell. */
  lemma DropCounts(t: Table, row: Row)
    ensures multiset(DropNullRows(t).rows)[row] == if HasNull(row) then 0 else multiset(t.rows)[row]
  {
    FilterMultiset(t.rows, Complete, row);
  }

  /** "drop" keeps the surviving rows in their original order: dropping from
      two blocks of rows is dropping from each block in turn. */
  lemma DropKeepsOrder(cols: seq<string>, a: seq<Row>, b: seq<Row>)
    requires Rectangular(Frame(cols, a)) && Rectangular(Frame(cols, b))
    ensures DropNullRows(Frame(cols, a + b)).rows
         == DropNullRows(Frame(cols, a)).rows + DropNullRows(Frame(cols, b)).rows
  {
    FilterAppend(a, b, Complete);
  }

  /** "drop" changes the table exactly when some row has a missing cell. */
  lemma DropIsIdentityIffNullFree(t: Table)
    ensures DropNullRows(t) == t <==> NullFree(t)
  {
    FilterIdentity(t.rows, Complete);
    if NullFree(t) {
      assert forall row :: row in t.rows ==> Complete(row);
    }
  }

  /** A table with a row holding a missing cell loses at least that row. */
  lemma DropShrinks(t: Table, i: nat)
    requires i < |t.rows| && HasNull(t.rows[i])
    ensures |DropNullRows(t).rows| < |t.rows|
  {
    FilterShrinks(t.rows, Complete, t.rows[i]);
  }

  lemma DropIdempotent(t: Table)
    ensures DropNullRows(DropNullRows(t)) == DropNullRows(t)
  {
    DropIsIdentityIffNullFree(DropNullRows(t));
  }

  /** "zero" changes the table exactly when some cell is missing. */
  lemma FillZeroIsIdentityIffNullFree(t: Table)
    ensures FillZero(t) == t <==> NullFree(t)
  {
    var r := FillZero(t);
    if NullFree(t) {
      forall i | 0 <= i < |t.rows|
        ensures r.rows[i] == t.rows[i]
      {
        assert !HasNull(t.rows[i]);
      }
    }
    if r == t {
      forall i | 0 <= i < |t.rows|
        ensures !HasNull(t.rows[i])
      {
        assert !HasNull(r.rows[i]);
      }
    }
  }

  lemma FillZeroIdempotent(t: Table)
    ensures FillZero(FillZero(t)) == FillZero(t)
  {
    FillZeroIsIdentityIffNullFree(FillZero(t));
  }

  /** After "zero" there is nothing left for "drop" to remove. */
  lemma DropAfterFillZero(t: Table)
    ensures DropNullRows(FillZero(t)) == FillZero(t)
  {
    DropIsIdentityIffNullFree(FillZero(t));
  }
}

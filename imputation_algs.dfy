/** The three imputation strategies the benchmark compares. Each projects
    the gapped table onto the requested columns and then overwrites those
    columns with what an imputer's `fit_transform` returns for them. The
    mean imputer's output is computed here; the iterative and soft imputers
    are foreign code, so their output matrix is a parameter. */
module ImputationAlgs {
  import opened Tables
  import opened Sums

  /** `remove_unwanted_columns(df, columns_to_keep)`: keep the requested
      columns that exist, in the requested order, with their values. */
  function RemoveUnwantedColumns(t: Table, columnsToKeep: seq<Name>): (r: Table)
    requires t.WellFormed()
    ensures r.WellFormed() && r.rows == t.rows
    ensures r.columns == KeepPresent(columnsToKeep, t.columns)
    ensures forall c :: c in r.data <==> c in columnsToKeep && c in t.data
    ensures forall c :: c in r.data ==> r.data[c] == t.data[c]
  {
    var keep := KeepPresent(columnsToKeep, t.columns);
    Table(keep, map c | c in t.data && c in keep :: t.data[c], t.rows)
  }

  /** Keeping every column of a table gives the table back. */
  lemma {:induction false} KeepAllColumns(t: Table)
    requires t.WellFormed()
    ensures RemoveUnwantedColumns(t, t.columns) == t
  {
    KeepPresentAllPresent(t.columns, t.columns);
    var r := RemoveUnwantedColumns(t, t.columns);
    assert r.data.Keys == t.data.Keys;
  }

  /** Projecting a second time onto the same names changes nothing. */
  lemma {:induction false} RemoveUnwantedColumnsIdempotent(t: Table, columnsToKeep: seq<Name>)
    requires t.WellFormed()
    ensures var once := RemoveUnwantedColumns(t, columnsToKeep);
            RemoveUnwantedColumns(once, columnsToKeep) == once
  {
    var once := RemoveUnwantedColumns(t, columnsToKeep);
    KeepPresentSameMembers(columnsToKeep, once.columns, t.columns);
    var twice := RemoveUnwantedColumns(once, columnsToKeep);
    assert twice.data.Keys == once.data.Keys;
  }

  /** A column of imputed values, as cells: none of them is NaN. */
  function Complete(values: seq<real>): (r: Column)
    ensures |r| == |values|
    ensures forall i :: 0 <= i < |r| ==> r[i] == Some(values[i])
  {
    seq(|values|, i requires 0 <= i < |values| => Some(values[i]))
  }

  /** The names of `columns` that `t` does not have: what pandas' KeyError
      reports for `df[columns]`. */
  function Absent(t: Table, columns: seq<Name>): (r: set<Name>)
    ensures forall c :: c in r <==> c in columns && c !in t.columns
  {
    set c | c in columns && c !in t.columns
  }

  /** `df = remove_unwanted_columns(df, columns); df[columns] =
      imputer.fit_transform(df[columns])`, where `fitted` maps each target
      column to the values the imputer returns for it. Indexing by an absent
      name raises the KeyError first; an imputer refuses a matrix with no
      columns (an empty `columns`) or no rows. */
  function Impute(t: Table, columns: seq<Name>, fitted: map<Name, seq<real>>): (r: Result<Table>)
    requires t.WellFormed()
    requires forall c :: c in columns && c in t.data ==> c in fitted && |fitted[c]| == t.rows
    ensures r.Ok? <==> (forall c :: c in columns ==> c in t.columns) && columns != [] && t.rows > 0
    ensures (exists c :: c in columns && c !in t.columns) ==> r == Err(KeyError(Absent(t, columns)))
    ensures (forall c :: c in columns ==> c in t.columns) && (columns == [] || t.rows == 0) ==>
              r == Err(EmptyMatrix)
    ensures r.Ok? ==> && r.value.WellFormed()
                      && r.value.columns == columns && r.value.rows == t.rows
                      && (forall c :: c in r.value.data <==> c in columns)
                      && (forall c :: c in columns ==> r.value.data[c] == Complete(fitted[c]))
  {
    var projected := RemoveUnwantedColumns(t, columns);
    var missing := Absent(projected, columns);
    if missing != {} then
      assert missing == Absent(t, columns);
      Err(KeyError(missing))
    else if columns == [] || t.rows == 0 then
      Err(EmptyMatrix)
    else
      KeepPresentAllPresent(columns, t.columns);
      Ok(AssignFitted(projected, columns, fitted))
  }

  /** `df[columns] = fitted`: the named columns take the imputed values,
      the others keep theirs. */
  function AssignFitted(t: Table, columns: seq<Name>, fitted: map<Name, seq<real>>): (r: Table)
    requires t.WellFormed()
    requires forall c :: c in columns ==> c in t.data && c in fitted && |fitted[c]| == t.rows
    ensures r.WellFormed() && r.columns == t.columns && r.rows == t.rows && r.data.Keys == t.data.Keys
    ensures forall c :: c in columns ==> r.data[c] == Complete(fitted[c])
    ensures forall c :: c in t.data && c !in columns ==> r.data[c] == t.data[c]
  {
    t.(data := t.data + map c | c in columns :: Complete(fitted[c]))
  }

  /** The observed (non-NaN) values of a column, in row order: each value
      as often as the column holds it. */
  function Observed(col: Column): (r: seq<real>)
    ensures |r| <= |col|
    ensures forall i :: 0 <= i < |col| && col[i].Some? ==> col[i].value in r
    ensures forall x {:trigger Occurrences(r, x)} :: Occurrences(r, x) == Occurrences(col, Some(x))
  {
    if col == [] then []
    else
      var head := if col[0].Some? then [col[0].value] else [];
      assert col == [col[0]] + col[1..];
      OccurrencesAppend([col[0]], col[1..]);
      OccurrencesAppend(head, Observed(col[1..]));
      head + Observed(col[1..])
  }

  function Mean(xs: seq<real>): real
    requires xs != []
  {
    Sum(xs) / |xs| as real
  }

  /** The column with every NaN replaced by `m`. */
  function FillWith(col: Column, m: real): (r: seq<real>)
    ensures |r| == |col|
    ensures forall i :: 0 <= i < |col| ==> r[i] == if col[i].Some? then col[i].value else m
  {
    seq(|col|, i requires 0 <= i < |col| => if col[i].Some? then col[i].value else m)
  }

  /** `SimpleImputer(strategy='mean')` on one column: observed values stay,
      every NaN becomes the mean of the observed values. */
  function MeanFill(col: Column): (r: seq<real>)
    requires Observed(col) != []
    ensures |r| == |col|
    ensures forall i :: 0 <= i < |col| ==>
              r[i] == if col[i].Some? then col[i].value else Mean(Observed(col))
  {
    FillWith(col, Mean(Observed(col)))
  }

  /** What the mean imputer returns for each target column of `t`; a table
      without rows never reaches the fit, so its columns stay empty. */
  function MeanFitted(t: Table, columns: seq<Name>): (r: map<Name, seq<real>>)
    requires t.WellFormed()
    requires forall c :: c in columns && c in t.data && t.rows > 0 ==> Observed(t.data[c]) != []
    ensures forall c :: c in columns && c in t.data ==> c in r && |r[c]| == t.rows
  {
    map c | c in columns && c in t.data :: if t.rows == 0 then [] else MeanFill(t.data[c])
  }

  /** `simple_imputation(df, columns, strategy='mean')` as a value. */
  function SimpleImpute(t: Table, columns: seq<Name>): (r: Result<Table>)
    requires t.WellFormed()
    requires forall c :: c in columns && c in t.data && t.rows > 0 ==> Observed(t.data[c]) != []
    ensures r.Ok? <==> (forall c :: c in columns ==> c in t.columns) && columns != [] && t.rows > 0
    ensures r.Err? ==> r.error == if Absent(t, columns) != {} then KeyError(Absent(t, columns)) else EmptyMatrix
    ensures r.Ok? ==> r.value.columns == columns && r.value.rows == t.rows
  {
    Impute(t, columns, MeanFitted(t, columns))
  }

  /** After mean imputation no target cell is NaN, every observed cell keeps
      its value, and every gap holds the mean of its column's observed
      values. */
  lemma {:induction false} SimpleImputeFillsGaps(t: Table, columns: seq<Name>, c: Name, i: nat)
    requires t.WellFormed()
    requires forall c :: c in columns && c in t.data && t.rows > 0 ==> Observed(t.data[c]) != []
    requires SimpleImpute(t, columns).Ok? && c in columns && i < t.rows
    ensures var r := SimpleImpute(t, columns).value;
            && r.data[c][i].Some?
            && (t.data[c][i].Some? ==> r.data[c][i] == t.data[c][i])
            && (t.data[c][i].None? ==> r.data[c][i] == Some(Mean(Observed(t.data[c]))))
  {
  }

  /** A table without rows reaches the input validation, which refuses it,
      whatever the requested columns hold. */
  lemma {:induction false} SimpleImputeNoRows(t: Table, columns: seq<Name>)
    requires t.WellFormed() && t.rows == 0 && columns != []
    requires forall c :: c in columns ==> c in t.columns
    ensures SimpleImpute(t, columns) == Err(EmptyMatrix)
  {
  }

  /** The number of NaN cells of a column. */
  function Gaps(col: Column): nat {
    if col == [] then 0
    else (if col[0].None? then 1 else 0) + Gaps(col[1..])
  }

  /** Every cell is either observed or a gap. */
  lemma {:induction false} ObservedPlusGaps(col: Column)
    ensures |Observed(col)| + Gaps(col) == |col|
  {
    if col != [] {
      ObservedPlusGaps(col[1..]);
    }
  }

  /** Filling the gaps with the mean leaves the mean unchanged. */
  lemma {:induction false} MeanFillKeepsMean(col: Column)
    requires Observed(col) != []
    ensures Mean(MeanFill(col)) == Mean(Observed(col))
  {
    var obs := Observed(col);
    var m := Mean(obs);
    FillSum(col, m);
    ObservedPlusGaps(col);
    MeanOfPadded(Sum(obs), |obs|, Gaps(col), m, Sum(MeanFill(col)));
  }

  /** Adding `g` copies of the mean `m` of `k` values to them keeps the mean. */
  lemma {:induction false} MeanOfPadded(s: real, k: nat, g: nat, m: real, total: real)
    requires k > 0 && m == s / k as real && total == s + Times(g, m)
    ensures total / (k + g) as real == m
  {
    TimesIsProduct(g, m, g as real);
    assert s == m * k as real;
    assert total == m * (k + g) as real;
  }

  /** Summing a column with its gaps replaced by `m` adds `m` once per gap. */
  lemma {:induction false} FillSum(col: Column, m: real)
    ensures Sum(FillWith(col, m)) == Sum(Observed(col)) + Times(Gaps(col), m)
  {
    if col != [] {
      FillSum(col[1..], m);
      FillWithSumCons(col, m);
      ObservedSumCons(col);
      GapsTimesCons(col, m);
    }
  }

  /** The first cell adds `m` to the padding exactly when it is a gap. */
  lemma {:induction false} GapsTimesCons(col: Column, m: real)
    requires col != []
    ensures Times(Gaps(col), m) == (if col[0].Some? then 0.0 else m) + Times(Gaps(col[1..]), m)
  {
    var g := Gaps(col[1..]);
    if col[0].None? {
      assert Gaps(col) == g + 1;
    }
  }

  /** The first cell's contribution to the sum of a filled column. */
  lemma {:induction false} FillWithSumCons(col: Column, m: real)
    requires col != []
    ensures Sum(FillWith(col, m)) == (if col[0].Some? then col[0].value else m) + Sum(FillWith(col[1..], m))
  {
    assert FillWith(col, m)[1..] == FillWith(col[1..], m);
  }

  /** The first cell's contribution to the sum of the observed values. */
  lemma {:induction false} ObservedSumCons(col: Column)
    requires col != []
    ensures Sum(Observed(col)) == (if col[0].Some? then col[0].value else 0.0) + Sum(Observed(col[1..]))
  {
    var rest := Observed(col[1..]);
    if col[0].Some? {
      assert Observed(col) == [col[0].value] + rest;
      assert ([col[0].value] + rest)[1..] == rest;
    } else {
      assert Observed(col) == rest;
    }
  }

  /** A column without gaps is returned unchanged. */
  lemma {:induction false} MeanFillComplete(col: Column)
    requires Observed(col) != [] && forall i :: 0 <= i < |col| ==> col[i].Some?
    ensures Complete(MeanFill(col)) == col
  {
  }

  /** Running the mean imputer on its own output changes nothing. */
  lemma {:induction false} MeanFillIdempotent(col: Column)
    requires Observed(col) != []
    ensures Observed(Complete(MeanFill(col))) != []
    ensures MeanFill(Complete(MeanFill(col))) == MeanFill(col)
  {
  }

  /** The shared body of the three imputers: project `df` onto `columns`
      into a new frame, then assign the imputed columns into it. `df` itself
      is never written. */
  method ImputeColumns(df: Frame, columns: seq<Name>, fitted: map<Name, seq<real>>) returns (r: Result<Frame>)
    requires df.Valid()
    requires forall c :: c in columns && c in df.data ==> c in fitted && |fitted[c]| == df.rows
    ensures var spec := Impute(df.Value(), columns, fitted);
            && r.Ok? == spec.Ok?
            && (r.Ok? ==> fresh(r.value) && r.value.Valid() && r.value.Value() == spec.value)
            && (r.Err? ==> r.error == spec.error)
  {
    var projected := new Frame(RemoveUnwantedColumns(df.Value(), columns));
    var missing := Absent(projected.Value(), columns);
    if missing != {} {
      return Err(KeyError(missing));
    }
    if columns == [] || projected.rows == 0 {
      return Err(EmptyMatrix);
    }
    forall c | c in columns
      ensures c in df.columns
    {
      assert c !in missing;
    }
    KeepPresentAllPresent(columns, df.columns);
    projected.AssignColumns(map c | c in columns :: Complete(fitted[c]));
    return Ok(projected);
  }

  /** `simple_imputation(df, columns)` with the default mean strategy. */
  method SimpleImputation(df: Frame, columns: seq<Name>) returns (r: Result<Frame>)
    requires df.Valid()
    requires forall c :: c in columns && c in df.data && df.rows > 0 ==> Observed(df.data[c]) != []
    ensures var spec := SimpleImpute(df.Value(), columns);
            && r.Ok? == spec.Ok?
            && (r.Ok? ==> fresh(r.value) && r.value.Valid() && r.value.Value() == spec.value)
            && (r.Err? ==> r.error == spec.error)
  {
    r := ImputeColumns(df, columns, MeanFitted(df.Value(), columns));
  }

  /** `multiple_imputation(df, columns)`: `fitted` is what
      `IterativeImputer(max_iter=10, random_state=42).fit_transform` returns. */
  method MultipleImputation(df: Frame, columns: seq<Name>, fitted: map<Name, seq<real>>) returns (r: Result<Frame>)
    requires df.Valid()
    requires forall c :: c in columns && c in df.data ==> c in fitted && |fitted[c]| == df.rows
    ensures var spec := Impute(df.Value(), columns, fitted);
            && r.Ok? == spec.Ok?
            && (r.Ok? ==> fresh(r.value) && r.value.Valid() && r.value.Value() == spec.value)
            && (r.Err? ==> r.error == spec.error)
  {
    r := ImputeColumns(df, columns, fitted);
  }

  /** `em_imputation(df, columns)`: `fitted` is what
      `SoftImpute().fit_transform` returns. */
  method EmImputation(df: Frame, columns: seq<Name>, fitted: map<Name, seq<real>>) returns (r: Result<Frame>)
    requires df.Valid()
    requires forall c :: c in columns && c in df.data ==> c in fitted && |fitted[c]| == df.rows
    ensures var spec := Impute(df.Value(), columns, fitted);
            && r.Ok? == spec.Ok?
            && (r.Ok? ==> fresh(r.value) && r.value.Valid() && r.value.Value() == spec.value)
            && (r.Err? ==> r.error == spec.error)
  {
    r := ImputeColumns(df, columns, fitted);
  }
}

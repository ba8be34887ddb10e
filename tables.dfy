/** The tabular data every stage of the benchmark passes around: a pandas
    DataFrame of numeric measurement columns whose rows are labelled 0..rows-1.
    A cell is either a value or NaN (the "missing" marker). */
module Tables {

  type Name = string

  datatype Option<T> = None | Some(value: T)

  /** One cell: `None` is NaN. */
  type Cell = Option<real>

  type Column = seq<Cell>

  /** The exceptions the core can raise: `EmptyRange` is the ValueError of
      `random.randint(a, b)` with `b < a`; `KeyError` is pandas refusing to
      index a frame with column names it does not have, reporting them;
      `EmptyMatrix` is the ValueError an imputer's input validation raises
      for a matrix with no rows or no columns; `SeedRange` is the ValueError
      of `np.random.seed` for a seed outside 0 .. 2^32 - 1. */
  datatype Error = EmptyRange | KeyError(missing: set<Name>) | EmptyMatrix | SeedRange

  datatype Result<T> = Ok(value: T) | Err(error: Error)

  /** The value of a frame: the ordered column names, the cells of each named
      column, and the row count. */
  datatype Table = Table(columns: seq<Name>, data: map<Name, Column>, rows: nat) {

    ghost predicate WellFormed() {
      && (forall c :: c in columns ==> c in data)
      && (forall c :: c in data ==> c in columns && |data[c]| == rows)
    }

    /** `df.loc[lo:hi - 1, col] = np.nan`: rows lo..hi-1 of one column
        (pandas label slices include their upper end). */
    function SetMissingRange(lo: nat, hi: nat, col: Name): (r: Table)
      requires col in data
      ensures r.columns == columns && r.rows == rows && r.data.Keys == data.Keys
    {
      this.(data := data[col := MarkRange(data[col], lo, hi)])
    }

    /** `df.at[row, col] = np.nan`: the one-row case of the above. */
    function SetMissing(row: nat, col: Name): (r: Table)
      requires col in data
      ensures r.columns == columns && r.rows == rows && r.data.Keys == data.Keys
    {
      SetMissingRange(row, row + 1, col)
    }
  }

  /** Blanking cells keeps a table well formed. */
  lemma {:induction false} SetMissingRangeWellFormed(t: Table, lo: nat, hi: nat, col: Name)
    requires t.WellFormed() && col in t.data
    ensures t.SetMissingRange(lo, hi, col).WellFormed()
  {
  }

  /** Blanking rows lo..hi-1 of one column changes exactly those cells. */
  lemma {:induction false} SetMissingRangeCell(t: Table, lo: nat, hi: nat, col: Name, c: Name, i: nat)
    requires col in t.data && c in t.data && i < |t.data[c]|
    ensures var r := t.SetMissingRange(lo, hi, col);
            && |r.data[c]| == |t.data[c]|
            && r.data[c][i] == if c == col && lo <= i < hi then None else t.data[c][i]
  {
  }

  /** The cells of `col` with rows lo..hi-1 overwritten by NaN. */
  function MarkRange(col: Column, lo: nat, hi: nat): (r: Column)
    ensures |r| == |col|
  {
    seq(|col|, i requires 0 <= i < |col| => if lo <= i < hi then None else col[i])
  }

  /** `[c for c in names if c in columns]`: the requested names that exist,
      in the order they were requested (repeats kept). */
  function KeepPresent(names: seq<Name>, columns: seq<Name>): (r: seq<Name>)
    ensures forall c :: c in r <==> c in names && c in columns
    ensures forall c {:trigger Occurrences(r, c)} :: Occurrences(r, c) == if c in columns then Occurrences(names, c) else 0
    ensures |r| <= |names|
  {
    if names == [] then []
    else
      var head := if names[0] in columns then [names[0]] else [];
      assert names == [names[0]] + names[1..];
      OccurrencesAppend([names[0]], names[1..]);
      OccurrencesAppend(head, KeepPresent(names[1..], columns));
      head + KeepPresent(names[1..], columns)
  }

  /** How many times `x` occurs in `s`. */
  function Occurrences<T(==)>(s: seq<T>, x: T): nat {
    multiset(s)[x]
  }

  lemma {:induction false} OccurrencesAppend<T>(a: seq<T>, b: seq<T>)
    ensures forall x {:trigger Occurrences(a + b, x)} :: Occurrences(a + b, x) == Occurrences(a, x) + Occurrences(b, x)
  {
    assert multiset(a + b) == multiset(a) + multiset(b);
  }

  /** `a` can be obtained from `b` by deleting elements. */
  predicate IsSubsequence<T(==)>(a: seq<T>, b: seq<T>)
    decreases |b|
  {
    a == [] ||
    (b != [] && ((a[0] == b[0] && IsSubsequence(a[1..], b[1..])) || IsSubsequence(a, b[1..])))
  }

  lemma {:induction false} KeepPresentPreservesOrder(names: seq<Name>, columns: seq<Name>)
    ensures IsSubsequence(KeepPresent(names, columns), names)
  {
    if names != [] {
      KeepPresentPreservesOrder(names[1..], columns);
      var rest := KeepPresent(names[1..], columns);
      if names[0] in columns {
        assert KeepPresent(names, columns) == [names[0]] + rest;
        assert ([names[0]] + rest)[1..] == rest;
      } else {
        assert KeepPresent(names, columns) == rest;
      }
    }
  }

  /** Filtering a second time changes nothing. */
  lemma {:induction false} KeepPresentIdempotent(names: seq<Name>, columns: seq<Name>)
    ensures KeepPresent(KeepPresent(names, columns), columns) == KeepPresent(names, columns)
  {
    if names != [] {
      KeepPresentIdempotent(names[1..], columns);
      var rest := KeepPresent(names[1..], columns);
      if names[0] in columns {
        assert KeepPresent(names, columns) == [names[0]] + rest;
        assert ([names[0]] + rest)[1..] == rest;
      } else {
        assert KeepPresent(names, columns) == rest;
      }
    }
  }

  /** Filtering only asks, of each name, whether it is a column. */
  lemma {:induction false} KeepPresentSameMembers(names: seq<Name>, a: seq<Name>, b: seq<Name>)
    requires forall c :: c in names ==> (c in a <==> c in b)
    ensures KeepPresent(names, a) == KeepPresent(names, b)
  {
    if names != [] {
      KeepPresentSameMembers(names[1..], a, b);
    }
  }

  /** When every requested name exists, nothing is dropped. */
  lemma {:induction false} KeepPresentAllPresent(names: seq<Name>, columns: seq<Name>)
    requires forall c :: c in names ==> c in columns
    ensures KeepPresent(names, columns) == names
  {
    if names != [] {
      KeepPresentAllPresent(names[1..], columns);
      assert [names[0]] + names[1..] == names;
    }
  }

  /** A pandas DataFrame, updated in place by `.at`, `.loc` and column
      assignment. */
  class Frame {
    var columns: seq<Name>
    var data: map<Name, Column>
    var rows: nat

    function Value(): Table
      reads this
    {
      Table(columns, data, rows)
    }

    ghost predicate Valid()
      reads this
    {
      Value().WellFormed()
    }

    /** A new frame holding `t`; `df.copy()` is `new Frame(df.Value())`. */
    constructor (t: Table)
      requires t.WellFormed()
      ensures Valid() && Value() == t
    {
      columns, data, rows := t.columns, t.data, t.rows;
    }

    method SetMissing(row: nat, col: Name)
      requires Valid() && col in data && row < rows
      modifies this
      ensures Valid() && Value() == old(Value()).SetMissing(row, col)
    {
      data := data[col := MarkRange(data[col], row, row + 1)];
    }

    method SetMissingRange(lo: nat, hi: nat, col: Name)
      requires Valid() && col in data
      modifies this
      ensures Valid() && Value() == old(Value()).SetMissingRange(lo, hi, col)
    {
      data := data[col := MarkRange(data[col], lo, hi)];
    }

    /** `df[columns] = block`: overwrite existing columns wholesale. */
    method AssignColumns(block: map<Name, Column>)
      requires Valid()
      requires forall c :: c in block ==> c in data && |block[c]| == rows
      modifies this
      ensures Valid() && columns == old(columns) && rows == old(rows)
      ensures data == old(data) + block
    {
      data := data + block;
    }
  }
}

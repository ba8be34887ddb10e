/** `introduce_missing_values`: overwrite a share of the cells of the target
    columns of a copy of a table with NaN, either one cell at a time
    ("random") or in runs of five consecutive rows of one column ("burst").

    Python's seeded generators are replaced by the draws they would hand the
    call (`Draws`), so the result is a function of the table, the arguments
    and the draws: the same seed gives the same draws, hence the same table. */
module MissingValues {
  import opened Tables

  /** Rows per burst, fixed so that the algorithms are compared fairly. */
  const BurstSize: nat := 5
  const RandomMode: string := "random"
  const BurstMode: string := "burst"

  /** `percent_range = (lo, hi)`, in percent. */
  datatype PercentRange = PercentRange(lo: real, hi: real)

  /** What the generators yield to one invocation, in order of use: the
      `random.uniform` percentage, then for pick (or burst) k the
      `random.randint` row (the burst's start row in burst mode) `rowDraws[k]`
      and the index `colDraws[k]` that `random.choice` takes in the filtered
      target columns. */
  datatype Draws = Draws(percent: real, rowDraws: seq<nat>, colDraws: seq<nat>)

  /** `random.uniform(lo, hi)` lies between its two arguments, in either order. */
  predicate InRange(p: real, range: PercentRange) {
    if range.lo <= range.hi then range.lo <= p <= range.hi else range.hi <= p <= range.lo
  }

  /** Python's `int()` of a float, which truncates toward zero. */
  function Trunc(x: real): (r: int)
    ensures x >= 0.0 ==> 0 <= r && r as real <= x < r as real + 1.0
    ensures x < 0.0 ==> r <= 0 && r as real - 1.0 < x <= r as real
  {
    if x >= 0.0 then x.Floor else -((-x).Floor)
  }

  /** `int(total_target_cells * percent_to_remove / 100)` */
  function NumMissing(total: nat, percent: real): (r: int)
    ensures percent >= 0.0 ==> 0 <= r && r as real <= total as real * percent / 100.0 < r as real + 1.0
    ensures percent < 0.0 ==> r <= 0 && r as real - 1.0 < total as real * percent / 100.0 <= r as real
  {
    Trunc(total as real * percent / 100.0)
  }

  /** How often `for _ in range(num_missing)` runs: never for a negative count. */
  function NumPicks(numMissing: int): (r: nat)
    ensures r as int >= numMissing && (numMissing <= 0 ==> r == 0)
    ensures numMissing >= 0 ==> r == numMissing
  {
    if numMissing > 0 then numMissing else 0
  }

  /** `max(1, num_missing // burst_size)` (Python's `//` floors, as Dafny's `/`
      does for a positive divisor): at least one burst, and otherwise as many
      whole bursts as fit in the budget. */
  function NumBursts(numMissing: int): (r: nat)
    ensures r >= 1
    ensures numMissing < 2 * BurstSize ==> r == 1
    ensures numMissing >= BurstSize ==> BurstSize * r <= numMissing < BurstSize * (r + 1)
  {
    var q := numMissing / BurstSize;
    if q < 1 then 1 else q
  }

  ghost predicate ColumnsIn(t: Table, cols: seq<Name>) {
    forall c :: c in cols ==> c in t.data
  }

  /** The first n column choices exist and index the filtered columns. */
  ghost predicate ChoicesFit(cols: seq<Name>, d: Draws, n: nat) {
    && n <= |d.rowDraws| && n <= |d.colDraws|
    && forall k :: 0 <= k < n ==> d.colDraws[k] < |cols|
  }

  /** The first n random-mode draws are what `randint(0, rows - 1)` and
      `choice(cols)` can return. */
  ghost predicate PicksFit(t: Table, cols: seq<Name>, d: Draws, n: nat) {
    && ChoicesFit(cols, d, n)
    && forall k :: 0 <= k < n ==> d.rowDraws[k] < t.rows
  }

  /** The first n burst-mode draws are what `randint(0, rows - 5)` and
      `choice(cols)` can return. */
  ghost predicate BurstsFit(t: Table, cols: seq<Name>, d: Draws, n: nat) {
    && ChoicesFit(cols, d, n)
    && forall k :: 0 <= k < n ==> d.rowDraws[k] + BurstSize <= t.rows
  }

  /** The cells the first n random picks name, as (row, column), in draw order. */
  function PickCells(cols: seq<Name>, d: Draws, n: nat): (r: seq<(nat, Name)>)
    requires ChoicesFit(cols, d, n)
    ensures |r| == n
    ensures forall x :: x in r ==> x.1 in cols
    ensures forall k :: 0 <= k < n ==> r[k] == (d.rowDraws[k], cols[d.colDraws[k]])
  {
    if n == 0 then []
    else PickCells(cols, d, n - 1) + [(d.rowDraws[n - 1], cols[d.colDraws[n - 1]])]
  }

  /** The five cells one burst covers. */
  function Block(start: nat, col: Name): (r: seq<(nat, Name)>)
    ensures |r| == BurstSize
    ensures forall row, c :: (row, c) in r <==> c == col && start <= row < start + BurstSize
  {
    var b := seq(BurstSize, j requires 0 <= j < BurstSize => (start + j, col));
    assert forall row, c :: (row, c) in b ==> c == col && start <= row < start + BurstSize;
    assert forall row: nat :: start <= row < start + BurstSize ==> b[row - start] == (row, col);
    b
  }

  /** The cells the first n bursts cover, burst after burst. */
  function BurstCells(cols: seq<Name>, d: Draws, n: nat): (r: seq<(nat, Name)>)
    requires ChoicesFit(cols, d, n)
    ensures |r| == BurstSize * n
    ensures forall x :: x in r ==> x.1 in cols
  {
    if n == 0 then []
    else BurstCells(cols, d, n - 1) + Block(d.rowDraws[n - 1], cols[d.colDraws[n - 1]])
  }

  /** The table after the first n iterations of the random-mode loop. */
  function ApplyPicks(t: Table, cols: seq<Name>, d: Draws, n: nat): (r: Table)
    requires ColumnsIn(t, cols) && ChoicesFit(cols, d, n)
    ensures r.columns == t.columns && r.rows == t.rows && r.data.Keys == t.data.Keys
  {
    if n == 0 then t
    else ApplyPicks(t, cols, d, n - 1).SetMissing(d.rowDraws[n - 1], cols[d.colDraws[n - 1]])
  }

  /** The table after the first n iterations of the burst-mode loop. */
  function ApplyBursts(t: Table, cols: seq<Name>, d: Draws, n: nat): (r: Table)
    requires ColumnsIn(t, cols) && ChoicesFit(cols, d, n)
    ensures r.columns == t.columns && r.rows == t.rows && r.data.Keys == t.data.Keys
  {
    if n == 0 then t
    else
      var start := d.rowDraws[n - 1];
      ApplyBursts(t, cols, d, n - 1).SetMissingRange(start, start + BurstSize, cols[d.colDraws[n - 1]])
  }

  /** The draws suit the mode that uses them. */
  ghost predicate DrawsFit(t: Table, cols: seq<Name>, range: PercentRange, burst: bool, d: Draws) {
    && InRange(d.percent, range)
    && var numMissing := NumMissing(t.rows * |cols|, d.percent);
       if burst then t.rows >= BurstSize ==> BurstsFit(t, cols, d, NumBursts(numMissing))
       else PicksFit(t, cols, d, NumPicks(numMissing))
  }

  /** What the generators guarantee one call: `d` suits the requested mode,
      and when the call falls back to "random" its re-invocation draws
      `retry`. Re-invoking reseeds, so with a seed `retry` replays `d`. */
  ghost predicate InjectFit(t: Table, targets: seq<Name>, range: PercentRange, seed: Option<int>,
                            missingType: string, d: Draws, retry: Draws)
  {
    var cols := KeepPresent(targets, t.columns);
    && (seed.Some? ==> retry == d)
    && (cols != [] ==>
          if missingType == RandomMode || missingType == BurstMode
          then DrawsFit(t, cols, range, missingType == BurstMode, d)
          else DrawsFit(t, cols, range, false, retry))
  }

  /** `np.random.seed` accepts no seed outside 0 .. 2^32 - 1. */
  const SeedLimit := 0x1_0000_0000

  predicate SeedOk(seed: Option<int>) {
    seed.None? || 0 <= seed.value < SeedLimit
  }

  /** The table `introduce_missing_values` returns, or the error it raises. */
  function Inject(t: Table, targets: seq<Name>, range: PercentRange, seed: Option<int>,
                  missingType: string, d: Draws, retry: Draws): (r: Result<Table>)
    requires t.WellFormed() && InjectFit(t, targets, range, seed, missingType, d, retry)
    ensures r.Err? <==> !SeedOk(seed)
                        || (KeepPresent(targets, t.columns) != [] && missingType == BurstMode && t.rows < BurstSize)
    ensures r.Err? ==> r.error == if SeedOk(seed) then EmptyRange else SeedRange
    ensures r.Ok? ==> r.value.WellFormed() && r.value.columns == t.columns && r.value.rows == t.rows
                      && r.value.data.Keys == t.data.Keys
    ensures SeedOk(seed) && KeepPresent(targets, t.columns) == [] ==> r == Ok(t)
    decreases if missingType == RandomMode || missingType == BurstMode then 0 else 1
  {
    var cols := KeepPresent(targets, t.columns);
    if !SeedOk(seed) then Err(SeedRange)
    else if cols == [] then Ok(t)
    else
      var numMissing := NumMissing(t.rows * |cols|, d.percent);
      if missingType == RandomMode then
        ApplyPicksWellFormed(t, cols, d, NumPicks(numMissing));
        Ok(ApplyPicks(t, cols, d, NumPicks(numMissing)))
      else if missingType == BurstMode then
        if t.rows < BurstSize then Err(EmptyRange)
        else
          ApplyBurstsWellFormed(t, cols, d, NumBursts(numMissing));
          Ok(ApplyBursts(t, cols, d, NumBursts(numMissing)))
      else
        KeepPresentIdempotent(targets, t.columns);
        Inject(t, cols, range, seed, RandomMode, retry, retry)
  }

  /** The random-mode loop: `df_missing.at[row, col] = np.nan` for each of
      the n picks. */
  method RandomPicks(dfMissing: Frame, cols: seq<Name>, draws: Draws, n: nat)
    requires dfMissing.Valid() && ColumnsIn(dfMissing.Value(), cols)
    requires PicksFit(dfMissing.Value(), cols, draws, n)
    modifies dfMissing
    ensures dfMissing.Valid() && dfMissing.Value() == ApplyPicks(old(dfMissing.Value()), cols, draws, n)
  {
    ghost var t := dfMissing.Value();
    for i := 0 to n
      invariant dfMissing.Valid() && dfMissing.Value() == ApplyPicks(t, cols, draws, i)
    {
      var row := draws.rowDraws[i];
      var col := cols[draws.colDraws[i]];
      assert ApplyPicks(t, cols, draws, i + 1) == ApplyPicks(t, cols, draws, i).SetMissing(row, col);
      dfMissing.SetMissing(row, col);
    }
  }

  /** The burst-mode loop: `df_missing.loc[start_idx:start_idx + 4, col] =
      np.nan` for each of the n bursts. */
  method Bursts(dfMissing: Frame, cols: seq<Name>, draws: Draws, n: nat)
    requires dfMissing.Valid() && ColumnsIn(dfMissing.Value(), cols)
    requires ChoicesFit(cols, draws, n)
    modifies dfMissing
    ensures dfMissing.Valid() && dfMissing.Value() == ApplyBursts(old(dfMissing.Value()), cols, draws, n)
  {
    ghost var t := dfMissing.Value();
    for b := 0 to n
      invariant dfMissing.Valid() && dfMissing.Value() == ApplyBursts(t, cols, draws, b)
    {
      var col := cols[draws.colDraws[b]];
      var startIdx := draws.rowDraws[b];
      dfMissing.SetMissingRange(startIdx, startIdx + BurstSize, col);
    }
  }

  /** `introduce_missing_values(df, target_columns, percent_range, seed,
      missing_type)`: works on a fresh copy, never on `df`. */
  method IntroduceMissingValues(df: Frame, targetColumns: seq<Name>, percentRange: PercentRange,
                                seed: Option<int>, missingType: string, draws: Draws, retry: Draws)
    returns (r: Result<Frame>)
    requires df.Valid()
    requires InjectFit(df.Value(), targetColumns, percentRange, seed, missingType, draws, retry)
    ensures var spec := Inject(df.Value(), targetColumns, percentRange, seed, missingType, draws, retry);
            && r.Ok? == spec.Ok?
            && (r.Ok? ==> fresh(r.value) && r.value.Valid() && r.value.Value() == spec.value)
            && (r.Err? ==> r.error == spec.error)
    decreases if missingType == RandomMode || missingType == BurstMode then 0 else 1
  {
    if !SeedOk(seed) {
      // np.random.seed rejects it before anything else happens
      return Err(SeedRange);
    }
    var dfMissing := new Frame(df.Value());
    var cols := KeepPresent(targetColumns, dfMissing.columns);
    if cols == [] {
      return Ok(dfMissing);
    }
    var totalTargetCells := dfMissing.rows * |cols|;
    var numMissing := NumMissing(totalTargetCells, draws.percent);

    if missingType == RandomMode {
      RandomPicks(dfMissing, cols, draws, NumPicks(numMissing));
    } else if missingType == BurstMode {
      var numBursts := NumBursts(numMissing);
      if dfMissing.rows < BurstSize {
        // the first randint(0, rows - burst_size) has an empty range
        return Err(EmptyRange);
      }
      Bursts(dfMissing, cols, draws, numBursts);
    } else {
      // unknown missing_type: start again from `df` as "random"
      KeepPresentIdempotent(targetColumns, df.columns);
      r := IntroduceMissingValues(df, cols, percentRange, seed, RandomMode, retry, retry);
      return;
    }
    return Ok(dfMissing);
  }

  // ---------------------------------------------------------------------
  // What the injector promises

  /** The cells whose value differs between `before` and `after`, as (row, column). */
  ghost function Changed(before: Table, after: Table): set<(nat, Name)>
    requires after.data.Keys == before.data.Keys
  {
    set row: nat, c | c in before.data && row < |before.data[c]| && row < |after.data[c]|
                      && after.data[c][row] != before.data[c][row] :: (row, c)
  }

  lemma {:induction false} DistinctAtMostLength(s: seq<(nat, Name)>)
    ensures |set x | x in s| <= |s|
  {
    if s != [] {
      var init := s[..|s| - 1];
      DistinctAtMostLength(init);
      assert s == init + [s[|s| - 1]];
      assert (set x | x in s) == (set x | x in init) + {s[|s| - 1]};
    }
  }

  lemma {:induction false} SubsetAtMost(a: set<(nat, Name)>, b: set<(nat, Name)>)
    requires a <= b
    ensures |a| <= |b|
  {
    assert b == a + (b - a);
  }

  lemma {:induction false} ApplyPicksWellFormed(t: Table, cols: seq<Name>, d: Draws, n: nat)
    requires t.WellFormed() && ColumnsIn(t, cols) && ChoicesFit(cols, d, n)
    ensures ApplyPicks(t, cols, d, n).WellFormed()
  {
    if n > 0 {
      ApplyPicksWellFormed(t, cols, d, n - 1);
      var row := d.rowDraws[n - 1];
      SetMissingRangeWellFormed(ApplyPicks(t, cols, d, n - 1), row, row + 1, cols[d.colDraws[n - 1]]);
    }
  }

  lemma {:induction false} ApplyBurstsWellFormed(t: Table, cols: seq<Name>, d: Draws, n: nat)
    requires t.WellFormed() && ColumnsIn(t, cols) && ChoicesFit(cols, d, n)
    ensures ApplyBursts(t, cols, d, n).WellFormed()
  {
    if n > 0 {
      ApplyBurstsWellFormed(t, cols, d, n - 1);
      var start := d.rowDraws[n - 1];
      SetMissingRangeWellFormed(ApplyBursts(t, cols, d, n - 1), start, start + BurstSize, cols[d.colDraws[n - 1]]);
    }
  }

  /** Random mode, cell by cell: a cell ends up NaN exactly when some pick
      named it; every other cell keeps its value. */
  lemma {:induction false} ApplyPicksCell(t: Table, cols: seq<Name>, d: Draws, n: nat, c: Name, row: nat)
    requires ColumnsIn(t, cols) && ChoicesFit(cols, d, n)
    requires c in t.data && row < |t.data[c]|
    ensures var r := ApplyPicks(t, cols, d, n);
            && |r.data[c]| == |t.data[c]|
            && r.data[c][row] == if (row, c) in PickCells(cols, d, n) then None else t.data[c][row]
  {
    if n > 0 {
      ApplyPicksCell(t, cols, d, n - 1, c, row);
      var pick := (d.rowDraws[n - 1], cols[d.colDraws[n - 1]]);
      SetMissingRangeCell(ApplyPicks(t, cols, d, n - 1), pick.0, pick.0 + 1, pick.1, c, row);
      assert PickCells(cols, d, n) == PickCells(cols, d, n - 1) + [pick];
      assert (row, c) in PickCells(cols, d, n)
         <==> (row, c) in PickCells(cols, d, n - 1) || (c == pick.1 && pick.0 <= row < pick.0 + 1);
    }
  }

  /** Burst mode, cell by cell: a cell ends up NaN exactly when it lies in
      one of the bursts (rows start..start+4 of the drawn column); every
      other cell keeps its value. */
  lemma {:induction false} ApplyBurstsCell(t: Table, cols: seq<Name>, d: Draws, n: nat, c: Name, row: nat)
    requires ColumnsIn(t, cols) && ChoicesFit(cols, d, n)
    requires c in t.data && row < |t.data[c]|
    ensures var r := ApplyBursts(t, cols, d, n);
            && |r.data[c]| == |t.data[c]|
            && r.data[c][row] == if (row, c) in BurstCells(cols, d, n) then None else t.data[c][row]
  {
    if n > 0 {
      ApplyBurstsCell(t, cols, d, n - 1, c, row);
      var start, col := d.rowDraws[n - 1], cols[d.colDraws[n - 1]];
      SetMissingRangeCell(ApplyBursts(t, cols, d, n - 1), start, start + BurstSize, col, c, row);
      assert BurstCells(cols, d, n) == BurstCells(cols, d, n - 1) + Block(start, col);
    }
  }

  /** Random mode: every changed cell is a NaN in a target column, and at most
      one cell changes per pick (repeated picks change nothing new). */
  lemma {:induction false} RandomChangesBounded(t: Table, cols: seq<Name>, d: Draws, n: nat)
    requires t.WellFormed() && ColumnsIn(t, cols) && PicksFit(t, cols, d, n)
    ensures var r := ApplyPicks(t, cols, d, n);
            && (forall x :: x in Changed(t, r) ==> x.1 in cols && r.data[x.1][x.0] == None)
            && (forall c :: c in t.data && c !in cols ==> r.data[c] == t.data[c])
            && |Changed(t, r)| <= n
  {
    var r := ApplyPicks(t, cols, d, n);
    ApplyPicksWellFormed(t, cols, d, n);
    var picked := set x | x in PickCells(cols, d, n);
    forall x | x in Changed(t, r)
      ensures x in picked && r.data[x.1][x.0] == None
    {
      ApplyPicksCell(t, cols, d, n, x.1, x.0);
    }
    DistinctAtMostLength(PickCells(cols, d, n));
    SubsetAtMost(Changed(t, r), picked);
    forall c | c in t.data && c !in cols
      ensures r.data[c] == t.data[c]
    {
      ApplyPicksOthers(t, cols, d, n, c);
    }
  }

  /** Burst mode: every changed cell is a NaN in a target column, at most
      five cells change per burst, and every cell of every burst is NaN. */
  lemma {:induction false} BurstChangesBounded(t: Table, cols: seq<Name>, d: Draws, n: nat)
    requires t.WellFormed() && ColumnsIn(t, cols) && BurstsFit(t, cols, d, n)
    ensures var r := ApplyBursts(t, cols, d, n);
            && r.WellFormed()
            && (forall x :: x in Changed(t, r) ==> x.1 in cols && r.data[x.1][x.0] == None)
            && (forall x :: x in Changed(t, r) ==>
                  exists k :: 0 <= k < n && x.1 == cols[d.colDraws[k]] && d.rowDraws[k] <= x.0 < d.rowDraws[k] + BurstSize)
            && (forall c :: c in t.data && c !in cols ==> r.data[c] == t.data[c])
            && |Changed(t, r)| <= BurstSize * n
            && (forall k, row :: 0 <= k < n && d.rowDraws[k] <= row < d.rowDraws[k] + BurstSize ==>
                  r.data[cols[d.colDraws[k]]][row] == None)
  {
    var r := ApplyBursts(t, cols, d, n);
    ApplyBurstsWellFormed(t, cols, d, n);
    var covered := set x | x in BurstCells(cols, d, n);
    forall x | x in Changed(t, r)
      ensures x in covered && r.data[x.1][x.0] == None
      ensures exists k :: 0 <= k < n && x.1 == cols[d.colDraws[k]] && d.rowDraws[k] <= x.0 < d.rowDraws[k] + BurstSize
    {
      ApplyBurstsCell(t, cols, d, n, x.1, x.0);
      BurstCellsOnlyBlocks(cols, d, n, x);
    }
    DistinctAtMostLength(BurstCells(cols, d, n));
    SubsetAtMost(Changed(t, r), covered);
    forall k, row | 0 <= k < n && d.rowDraws[k] <= row < d.rowDraws[k] + BurstSize
      ensures r.data[cols[d.colDraws[k]]][row] == None
    {
      BurstCellsCover(cols, d, n, k, row);
      ApplyBurstsCell(t, cols, d, n, cols[d.colDraws[k]], row);
    }
    forall c | c in t.data && c !in cols
      ensures r.data[c] == t.data[c]
    {
      ApplyBurstsOthers(t, cols, d, n, c);
    }
  }

  /** Conversely, every cell of `BurstCells` lies in the five-row run of one
      of the bursts, in that burst's column. */
  lemma {:induction false} BurstCellsOnlyBlocks(cols: seq<Name>, d: Draws, n: nat, x: (nat, Name))
    requires ChoicesFit(cols, d, n) && x in BurstCells(cols, d, n)
    ensures exists k :: 0 <= k < n && x.1 == cols[d.colDraws[k]] && d.rowDraws[k] <= x.0 < d.rowDraws[k] + BurstSize
  {
    var last := Block(d.rowDraws[n - 1], cols[d.colDraws[n - 1]]);
    assert BurstCells(cols, d, n) == BurstCells(cols, d, n - 1) + last;
    if x in BurstCells(cols, d, n - 1) {
      BurstCellsOnlyBlocks(cols, d, n - 1, x);
      var k :| 0 <= k < n - 1 && x.1 == cols[d.colDraws[k]] && d.rowDraws[k] <= x.0 < d.rowDraws[k] + BurstSize;
      assert 0 <= k < n;
    } else {
      assert x in last;
      assert x.1 == cols[d.colDraws[n - 1]] && d.rowDraws[n - 1] <= x.0 < d.rowDraws[n - 1] + BurstSize;
    }
  }

  lemma {:induction false} BurstCellsCover(cols: seq<Name>, d: Draws, n: nat, k: nat, row: nat)
    requires ChoicesFit(cols, d, n) && k < n && d.rowDraws[k] <= row < d.rowDraws[k] + BurstSize
    ensures (row, cols[d.colDraws[k]]) in BurstCells(cols, d, n)
  {
    if k < n - 1 {
      BurstCellsCover(cols, d, n - 1, k, row);
    }
  }

  /** Random mode leaves the cell of every pick NaN, whatever later picks do. */
  lemma {:induction false} PickCellsCover(t: Table, cols: seq<Name>, d: Draws, n: nat, k: nat)
    requires ColumnsIn(t, cols) && PicksFit(t, cols, d, n) && t.WellFormed() && k < n
    ensures var c, r := cols[d.colDraws[k]], ApplyPicks(t, cols, d, n);
            c in r.data && d.rowDraws[k] < |r.data[c]| && r.data[c][d.rowDraws[k]] == None
  {
    var c := cols[d.colDraws[k]];
    assert PickCells(cols, d, n)[k] == (d.rowDraws[k], c);
    ApplyPicksCell(t, cols, d, n, c, d.rowDraws[k]);
  }

  /** Random mode never touches a column that was not drawn from. */
  lemma {:induction false} ApplyPicksOthers(t: Table, cols: seq<Name>, d: Draws, n: nat, c: Name)
    requires ColumnsIn(t, cols) && ChoicesFit(cols, d, n) && c in t.data && c !in cols
    ensures ApplyPicks(t, cols, d, n).data[c] == t.data[c]
  {
    if n > 0 {
      ApplyPicksOthers(t, cols, d, n - 1, c);
    }
  }

  /** Burst mode never touches a column that was not drawn from. */
  lemma {:induction false} ApplyBurstsOthers(t: Table, cols: seq<Name>, d: Draws, n: nat, c: Name)
    requires ColumnsIn(t, cols) && ChoicesFit(cols, d, n) && c in t.data && c !in cols
    ensures ApplyBursts(t, cols, d, n).data[c] == t.data[c]
  {
    if n > 0 {
      ApplyBurstsOthers(t, cols, d, n - 1, c);
    }
  }

  /** `after` differs from `before` only in cells of the `targets` columns,
      each of which is now NaN; every other column is exactly as it was. */
  ghost predicate OnlyBlanksTargets(before: Table, after: Table, targets: seq<Name>)
    requires after.data.Keys == before.data.Keys
  {
    && (forall x :: x in Changed(before, after) ==> x.1 in targets && after.data[x.1][x.0] == None)
    && (forall c :: c in before.data && c !in targets ==> after.data[c] == before.data[c])
  }

  /** Whatever the mode, a successful injection only blanks cells of the
      requested columns. */
  lemma {:induction false} InjectOnlyBlanksTargets(t: Table, targets: seq<Name>, range: PercentRange, seed: Option<int>,
                                missingType: string, d: Draws, retry: Draws)
    requires t.WellFormed() && InjectFit(t, targets, range, seed, missingType, d, retry)
    ensures var r := Inject(t, targets, range, seed, missingType, d, retry);
            r.Ok? ==> OnlyBlanksTargets(t, r.value, targets)
  {
    if missingType == RandomMode {
      RandomOnlyBlanksTargets(t, targets, range, seed, d, retry);
    } else if missingType == BurstMode {
      BurstOnlyBlanksTargets(t, targets, range, seed, d, retry);
    } else {
      UnknownTypeFallsBack(t, targets, range, seed, missingType, d, retry);
      RandomOnlyBlanksTargets(t, targets, range, seed, retry, retry);
    }
  }

  lemma {:induction false} RandomOnlyBlanksTargets(t: Table, targets: seq<Name>, range: PercentRange, seed: Option<int>,
                                d: Draws, retry: Draws)
    requires t.WellFormed() && InjectFit(t, targets, range, seed, RandomMode, d, retry)
    ensures var r := Inject(t, targets, range, seed, RandomMode, d, retry);
            && (r.Ok? <==> SeedOk(seed))
            && (r.Ok? ==> OnlyBlanksTargets(t, r.value, targets))
  {
    var cols := KeepPresent(targets, t.columns);
    if SeedOk(seed) && cols != [] {
      RandomChangesBounded(t, cols, d, NumPicks(NumMissing(t.rows * |cols|, d.percent)));
    }
  }

  lemma {:induction false} BurstOnlyBlanksTargets(t: Table, targets: seq<Name>, range: PercentRange, seed: Option<int>,
                                d: Draws, retry: Draws)
    requires t.WellFormed() && InjectFit(t, targets, range, seed, BurstMode, d, retry)
    ensures var r := Inject(t, targets, range, seed, BurstMode, d, retry);
            r.Ok? ==> OnlyBlanksTargets(t, r.value, targets)
  {
    var cols := KeepPresent(targets, t.columns);
    if SeedOk(seed) && cols != [] && t.rows >= BurstSize {
      BurstChangesBounded(t, cols, d, NumBursts(NumMissing(t.rows * |cols|, d.percent)));
    }
  }

  /** Random mode blanks at most `num_missing` cells: one per pick, fewer
      when a cell is picked twice. */
  lemma {:induction false} RandomBudget(t: Table, targets: seq<Name>, range: PercentRange, seed: Option<int>, d: Draws, retry: Draws)
    requires t.WellFormed() && InjectFit(t, targets, range, seed, RandomMode, d, retry)
    ensures var r := Inject(t, targets, range, seed, RandomMode, d, retry);
            var cols := KeepPresent(targets, t.columns);
            && (r.Ok? <==> SeedOk(seed))
            && (r.Ok? ==> |Changed(t, r.value)| <= NumPicks(NumMissing(t.rows * |cols|, d.percent)))
  {
    var cols := KeepPresent(targets, t.columns);
    if SeedOk(seed) && cols != [] {
      RandomChangesBounded(t, cols, d, NumPicks(NumMissing(t.rows * |cols|, d.percent)));
    }
  }

  /** Burst mode, on a table of at least five rows, blanks whole runs: every
      burst's five cells are NaN afterwards, and no more than five cells per
      burst change. */
  lemma {:induction false} BurstBudget(t: Table, targets: seq<Name>, range: PercentRange, seed: Option<int>, d: Draws, retry: Draws)
    requires t.WellFormed() && InjectFit(t, targets, range, seed, BurstMode, d, retry)
    requires t.rows >= BurstSize
    ensures var r := Inject(t, targets, range, seed, BurstMode, d, retry);
            var cols := KeepPresent(targets, t.columns);
            var n := NumBursts(NumMissing(t.rows * |cols|, d.percent));
            && (r.Ok? <==> SeedOk(seed))
            && (r.Ok? && cols != [] ==>
                  && |Changed(t, r.value)| <= BurstSize * n
                  && (forall x :: x in Changed(t, r.value) ==>
                        exists k :: 0 <= k < n && x.1 == cols[d.colDraws[k]]
                                    && d.rowDraws[k] <= x.0 < d.rowDraws[k] + BurstSize)
                  && forall k, row :: 0 <= k < n && d.rowDraws[k] <= row < d.rowDraws[k] + BurstSize ==>
                       r.value.data[cols[d.colDraws[k]]][row] == None)
  {
    var cols := KeepPresent(targets, t.columns);
    if SeedOk(seed) && cols != [] {
      BurstChangesBounded(t, cols, d, NumBursts(NumMissing(t.rows * |cols|, d.percent)));
    }
  }

  /** An unknown `missing_type` is redone as "random" on the same columns,
      with the draws of the re-invocation; with a seed those are the draws of
      the first attempt. */
  lemma {:induction false} UnknownTypeFallsBack(t: Table, targets: seq<Name>, range: PercentRange, seed: Option<int>,
                             missingType: string, d: Draws, retry: Draws)
    requires t.WellFormed() && InjectFit(t, targets, range, seed, missingType, d, retry)
    requires missingType != RandomMode && missingType != BurstMode
    ensures InjectFit(t, targets, range, seed, RandomMode, retry, retry)
    ensures Inject(t, targets, range, seed, missingType, d, retry)
         == Inject(t, targets, range, seed, RandomMode, retry, retry)
    ensures seed.Some? ==>
              Inject(t, targets, range, seed, missingType, d, retry) == Inject(t, targets, range, seed, RandomMode, d, d)
  {
    KeepPresentIdempotent(targets, t.columns);
  }

  /** The number of cells to blank grows with the drawn percentage, so it
      lies between the counts for the two ends of the range, in whichever
      order they were given; within 0..100 percent it is between 0 and the
      number of target cells. */
  lemma {:induction false} NumMissingBounds(total: nat, range: PercentRange, p: real)
    requires InRange(p, range)
    ensures var low := if range.lo <= range.hi then range.lo else range.hi;
            var high := if range.lo <= range.hi then range.hi else range.lo;
            NumMissing(total, low) <= NumMissing(total, p) <= NumMissing(total, high)
    ensures 0.0 <= range.lo <= 100.0 && 0.0 <= range.hi <= 100.0 ==> 0 <= NumMissing(total, p) <= total
  {
    var low := if range.lo <= range.hi then range.lo else range.hi;
    var high := if range.lo <= range.hi then range.hi else range.lo;
    NumMissingMonotone(total, low, p);
    NumMissingMonotone(total, p, high);
    if 0.0 <= low && high <= 100.0 {
      NumMissingMonotone(total, 0.0, p);
      NumMissingMonotone(total, p, 100.0);
      NumMissingAll(total);
    }
  }

  /** A larger percentage never asks for fewer cells. */
  lemma {:induction false} NumMissingMonotone(total: nat, p: real, q: real)
    requires p <= q
    ensures NumMissing(total, p) <= NumMissing(total, q)
  {
    var n, gap := total as real, q - p;
    assert 0.0 <= n * gap;
    assert n * q == n * p + n * gap;
    assert n * p / 100.0 <= n * q / 100.0;
    TruncMonotone(n * p / 100.0, n * q / 100.0);
  }

  /** 100 percent of the target cells is all of them. */
  lemma {:induction false} NumMissingAll(total: nat)
    ensures NumMissing(total, 100.0) == total
  {
    assert total as real * 100.0 / 100.0 == total as real;
  }

  /** `int()` never decreases: truncation toward zero is monotone on both
      sides of zero. */
  lemma {:induction false} TruncMonotone(x: real, y: real)
    requires x <= y
    ensures Trunc(x) <= Trunc(y)
  {
    if y < 0.0 {
      assert (-y).Floor <= (-x).Floor;
    }
  }
}

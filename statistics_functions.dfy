/** The evaluator: for each requested column present in both the original
    and the imputed table, score the imputed values against the originals
    over the rows where both are present, by mean absolute error and by
    root mean squared error. */
module StatisticsFunctions {
  import opened Tables
  import opened Sums

  function Abs(x: real): real {
    if x < 0.0 then -x else x
  }

  function Sq(x: real): (r: real)
    ensures r >= 0.0
  {
    x * x
  }

  /** Row i is scored: `original_df[col].notna() & imputed_df[col].notna()`. */
  predicate BothPresent(a: Column, b: Column, i: int)
    requires 0 <= i < |a| && |a| == |b|
  {
    a[i].Some? && b[i].Some?
  }

  /** The cells of two equally long columns, row by row. */
  function Zip(a: Column, b: Column): (r: seq<(Cell, Cell)>)
    requires |a| == |b|
    ensures |r| == |a|
    ensures forall i :: 0 <= i < |a| ==> r[i] == (a[i], b[i])
  {
    seq(|a|, i requires 0 <= i < |a| => (a[i], b[i]))
  }

  /** The (original, imputed) value pairs of the scored rows, in row order:
      `original_df.loc[mask, col]` beside `imputed_df.loc[mask, col]`. Each
      pair occurs once per row holding it with both values present. */
  function Masked(a: Column, b: Column): (r: seq<(real, real)>)
    requires |a| == |b|
    ensures |r| <= |a|
    ensures forall i :: 0 <= i < |a| && BothPresent(a, b, i) ==> (a[i].value, b[i].value) in r
    ensures forall p {:trigger Occurrences(r, p)} :: Occurrences(r, p) == Occurrences(Zip(a, b), (Some(p.0), Some(p.1)))
  {
    if a == [] then []
    else
      var head := if BothPresent(a, b, 0) then [(a[0].value, b[0].value)] else [];
      assert Zip(a, b) == [(a[0], b[0])] + Zip(a[1..], b[1..]);
      OccurrencesAppend([(a[0], b[0])], Zip(a[1..], b[1..]));
      OccurrencesAppend(head, Masked(a[1..], b[1..]));
      head + Masked(a[1..], b[1..])
  }

  /** Every pair that is scored comes from a row where both values are present. */
  lemma {:induction false} MaskedFromBothPresent(a: Column, b: Column, p: (real, real))
    requires |a| == |b| && p in Masked(a, b)
    ensures exists i :: 0 <= i < |a| && BothPresent(a, b, i) && a[i] == Some(p.0) && b[i] == Some(p.1)
  {
    if BothPresent(a, b, 0) && p == (a[0].value, b[0].value) {
      assert BothPresent(a, b, 0);
    } else {
      if BothPresent(a, b, 0) {
        assert Masked(a, b) == [(a[0].value, b[0].value)] + Masked(a[1..], b[1..]);
      }
      MaskedFromBothPresent(a[1..], b[1..], p);
      var i :| 0 <= i < |a[1..]| && BothPresent(a[1..], b[1..], i) && a[1..][i] == Some(p.0) && b[1..][i] == Some(p.1);
      assert BothPresent(a, b, i + 1);
    }
  }

  /** Only the scored rows matter: two pairs of columns that are present in
      the same rows, and agree there, have the same scored pairs, whatever
      they hold in the other rows. */
  lemma {:induction false} MaskedIgnoresMissing(a: Column, b: Column, a2: Column, b2: Column)
    requires |a| == |b| == |a2| == |b2|
    requires forall i :: 0 <= i < |a| ==> (BothPresent(a, b, i) <==> BothPresent(a2, b2, i))
    requires forall i :: 0 <= i < |a| && BothPresent(a, b, i) ==> a[i] == a2[i] && b[i] == b2[i]
    ensures Masked(a, b) == Masked(a2, b2)
  {
    if a != [] {
      assert BothPresent(a, b, 0) <==> BothPresent(a2, b2, 0);
      forall i | 0 <= i < |a[1..]|
        ensures BothPresent(a[1..], b[1..], i) <==> BothPresent(a2[1..], b2[1..], i)
      {
        assert BothPresent(a, b, i + 1) <==> BothPresent(a2, b2, i + 1);
      }
      forall i | 0 <= i < |a[1..]| && BothPresent(a[1..], b[1..], i)
        ensures a[1..][i] == a2[1..][i] && b[1..][i] == b2[1..][i]
      {
        assert BothPresent(a, b, i + 1);
      }
      MaskedIgnoresMissing(a[1..], b[1..], a2[1..], b2[1..]);
    }
  }

  /** Sum of |original - imputed| over the pairs. */
  function SumAbs(ps: seq<(real, real)>): (r: real)
    ensures r >= 0.0
  {
    if ps == [] then 0.0 else Abs(ps[0].0 - ps[0].1) + SumAbs(ps[1..])
  }

  /** Sum of (original - imputed)^2 over the pairs. */
  function SumSq(ps: seq<(real, real)>): (r: real)
    ensures r >= 0.0
  {
    if ps == [] then 0.0 else Sq(ps[0].0 - ps[0].1) + SumSq(ps[1..])
  }

  /** `mean_absolute_error` over the scored rows of one column. */
  function Mae(a: Column, b: Column): (r: real)
    requires |a| == |b| && Masked(a, b) != []
    ensures r >= 0.0
  {
    SumAbs(Masked(a, b)) / |Masked(a, b)| as real
  }

  /** The mean squared error over the scored rows of one column: what
      `root_mean_squared_error` takes the square root of. */
  function Mse(a: Column, b: Column): (r: real)
    requires |a| == |b| && Masked(a, b) != []
    ensures r >= 0.0
  {
    SumSq(Masked(a, b)) / |Masked(a, b)| as real
  }

  /** Pairs whose two values agree contribute nothing. */
  lemma {:induction false} AgreeingPairs(ps: seq<(real, real)>)
    requires forall k :: 0 <= k < |ps| ==> ps[k].0 == ps[k].1
    ensures SumAbs(ps) == 0.0 && SumSq(ps) == 0.0
  {
    if ps != [] {
      AgreeingPairs(ps[1..]);
    }
  }

  lemma {:induction false} MaskedOfSelf(a: Column)
    ensures forall k :: 0 <= k < |Masked(a, a)| ==> Masked(a, a)[k].0 == Masked(a, a)[k].1
  {
    if a != [] {
      MaskedOfSelf(a[1..]);
      if BothPresent(a, a, 0) {
        assert Masked(a, a) == [(a[0].value, a[0].value)] + Masked(a[1..], a[1..]);
      }
    }
  }

  /** Scoring a column against itself gives 0, by either measure. */
  lemma {:induction false} SelfScoreZero(a: Column)
    requires Masked(a, a) != []
    ensures Mae(a, a) == 0.0 && Mse(a, a) == 0.0
  {
    MaskedOfSelf(a);
    AgreeingPairs(Masked(a, a));
  }

  /** The root mean squared error of a column against itself is 0. */
  lemma {:induction false} SelfRmseZero(a: Column, rmse: real)
    requires Masked(a, a) != [] && rmse >= 0.0 && Sq(rmse) == Mse(a, a)
    ensures rmse == 0.0
  {
    SelfScoreZero(a);
    if rmse > 0.0 {
      SquareMonotone(0.0, rmse);
    }
  }

  /** The |differences| of the pairs, in order. */
  function AbsErrors(ps: seq<(real, real)>): (r: seq<real>)
    ensures |r| == |ps|
  {
    if ps == [] then [] else [Abs(ps[0].0 - ps[0].1)] + AbsErrors(ps[1..])
  }

  function SumSquares(xs: seq<real>): real {
    if xs == [] then 0.0 else Sq(xs[0]) + SumSquares(xs[1..])
  }

  /** Both sums over the pairs are sums over their |differences|. */
  lemma {:induction false} AbsErrorSums(ps: seq<(real, real)>)
    ensures SumAbs(ps) == Sum(AbsErrors(ps)) && SumSq(ps) == SumSquares(AbsErrors(ps))
  {
    if ps != [] {
      AbsErrorSums(ps[1..]);
      SquareOfAbs(ps[0].0 - ps[0].1);
      assert AbsErrors(ps)[1..] == AbsErrors(ps[1..]);
    }
  }

  lemma {:induction false} SquareOfAbs(d: real)
    ensures Sq(Abs(d)) == Sq(d)
  {
  }

  /** The tangent lines at `c` of the squares, summed: 2 c x - c^2 per value. */
  function Tangents(xs: seq<real>, c: real): real {
    if xs == [] then 0.0 else 2.0 * c * xs[0] - Sq(c) + Tangents(xs[1..], c)
  }

  /** A square lies above its tangent line: x^2 >= 2 c x - c^2. */
  lemma {:induction false} TangentBelow(x: real, c: real)
    ensures Sq(x) >= 2.0 * c * x - Sq(c)
  {
    assert Sq(x) - (2.0 * c * x - Sq(c)) == Sq(x - c);
  }

  lemma {:induction false} SquaresAboveTangents(xs: seq<real>, c: real)
    ensures SumSquares(xs) >= Tangents(xs, c)
  {
    if xs != [] {
      SquaresAboveTangents(xs[1..], c);
      TangentBelow(xs[0], c);
    }
  }

  /** The tangents summed in closed form, for `s` the sum of the values. */
  lemma {:induction false} TangentsSum(xs: seq<real>, c: real, s: real)
    requires s == Sum(xs)
    ensures Tangents(xs, c) == 2.0 * c * s - Times(|xs|, Sq(c))
  {
    if xs != [] {
      TangentsSum(xs[1..], c, s - xs[0]);
      Distribute(c, xs[0], s - xs[0], s, Times(|xs[1..]|, Sq(c)), Sq(c));
    }
  }


  lemma {:induction false} Distribute(c: real, x: real, s: real, total: real, nq: real, q: real)
    requires total == x + s
    ensures 2.0 * c * total - (nq + q) == (2.0 * c * x - q) + (2.0 * c * s - nq)
  {
  }

  /** From sq >= 2 mae s - n mae^2 with mae = s / n: mae^2 <= sq / n. */
  lemma {:induction false} MeanSquareBound(s: real, sq: real, n: real, mae: real, t: real, nq: real)
    requires n > 0.0 && mae == s / n
    requires sq >= t && t == 2.0 * mae * s - nq && nq == n * Sq(mae)
    ensures Sq(mae) <= sq / n
  {
    assert s == mae * n;
    assert 2.0 * mae * s - n * Sq(mae) == n * Sq(mae);
    assert Sq(mae) == (n * Sq(mae)) / n;
  }

  /** RMSE is never below MAE over the same rows. */
  lemma {:induction false} RmseAtLeastMae(a: Column, b: Column, rmse: real)
    requires |a| == |b| && Masked(a, b) != []
    requires rmse >= 0.0 && Sq(rmse) == Mse(a, b)
    ensures rmse >= Mae(a, b)
  {
    var ps := Masked(a, b);
    var xs := AbsErrors(ps);
    AbsErrorSums(ps);
    SquareOfMeanBound(xs, |ps| as real, SumAbs(ps), SumSq(ps), Mae(a, b));
    if rmse < Mae(a, b) {
      SquareMonotone(rmse, Mae(a, b));
    }
  }

  /** The square of the mean never exceeds the mean of the squares. */
  lemma {:induction false} SquareOfMeanBound(xs: seq<real>, n: real, s: real, sq: real, mean: real)
    requires xs != [] && n == |xs| as real && s == Sum(xs) && sq == SumSquares(xs) && mean == s / n
    ensures Sq(mean) <= sq / n
  {
    var t := Tangents(xs, mean);
    var nq := Times(|xs|, Sq(mean));
    TangentFacts(xs, n, s, sq, mean, t, nq);
    MeanSquareBound(s, sq, n, mean, t, nq);
  }

  /** The tangents at `mean`, summed, lie below the sum of squares and equal
      2 mean s - n mean^2. */
  lemma {:induction false} TangentFacts(xs: seq<real>, n: real, s: real, sq: real, mean: real, t: real, nq: real)
    requires n == |xs| as real && s == Sum(xs) && sq == SumSquares(xs)
    requires t == Tangents(xs, mean) && nq == Times(|xs|, Sq(mean))
    ensures sq >= t && t == 2.0 * mean * s - nq && nq == n * Sq(mean)
  {
    SquaresAboveTangents(xs, mean);
    TangentsSum(xs, mean, s);
    TimesIsProduct(|xs|, Sq(mean), n);
  }

  lemma {:induction false} SquareMonotone(x: real, y: real)
    requires 0.0 <= x < y
    ensures Sq(x) < Sq(y)
  {
    var xy := x * y;
    assert x * x <= xy;
    assert xy < y * y;
    assert Sq(x) <= xy;
  }

  /** `compute_mae(original_df, imputed_df, columns)`: the scored columns are
      those of `columns` present in both tables; the others only produce a
      warning. */
  method ComputeMae(original: Frame, imputed: Frame, columns: seq<Name>) returns (maeScores: map<Name, real>)
    requires original.Valid() && imputed.Valid() && original.rows == imputed.rows
    requires forall c :: c in columns && c in original.data && c in imputed.data ==>
               Masked(original.data[c], imputed.data[c]) != []
    ensures forall c :: c in maeScores <==> c in columns && c in original.columns && c in imputed.columns
    ensures forall c :: c in maeScores ==> maeScores[c] == Mae(original.data[c], imputed.data[c])
  {
    maeScores := map[];
    for i := 0 to |columns|
      invariant forall c :: c in maeScores <==> c in columns[..i] && c in original.columns && c in imputed.columns
      invariant forall c :: c in maeScores ==> maeScores[c] == Mae(original.data[c], imputed.data[c])
    {
      var col := columns[i];
      assert columns[..i + 1] == columns[..i] + [col];
      if col in original.columns && col in imputed.columns {
        var score := Mae(original.data[col], imputed.data[col]);
        maeScores := maeScores[col := score];
      }
    }
    assert columns[..|columns|] == columns;
  }

  /** `compute_rmse(original_df, imputed_df, columns)`, with the square root
      as a parameter: each score is the non-negative root of the mean
      squared error over the scored rows. */
  method ComputeRmse(original: Frame, imputed: Frame, columns: seq<Name>, sqrt: real -> real)
    returns (rmseScores: map<Name, real>)
    requires original.Valid() && imputed.Valid() && original.rows == imputed.rows
    requires forall c :: c in columns && c in original.data && c in imputed.data ==>
               Masked(original.data[c], imputed.data[c]) != []
    requires forall x :: 0.0 <= x ==> 0.0 <= sqrt(x) && Sq(sqrt(x)) == x
    ensures forall c :: c in rmseScores <==> c in columns && c in original.columns && c in imputed.columns
    ensures forall c :: c in rmseScores ==>
              rmseScores[c] >= 0.0 && Sq(rmseScores[c]) == Mse(original.data[c], imputed.data[c])
  {
    rmseScores := map[];
    for i := 0 to |columns|
      invariant forall c :: c in rmseScores <==> c in columns[..i] && c in original.columns && c in imputed.columns
      invariant forall c :: c in rmseScores ==>
                  rmseScores[c] >= 0.0 && Sq(rmseScores[c]) == Mse(original.data[c], imputed.data[c])
    {
      var col := columns[i];
      assert columns[..i + 1] == columns[..i] + [col];
      if col in original.columns && col in imputed.columns {
        var score := sqrt(Mse(original.data[col], imputed.data[col]));
        rmseScores := rmseScores[col := score];
      }
    }
    assert columns[..|columns|] == columns;
  }
}

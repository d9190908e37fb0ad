/** The statistics helpers of the EDA engine, over an in-memory table: the shape and null counts
    of a summary, the IQR outlier rule, equal-width histograms, value frequencies and the guard
    around k-means clustering. Numbers are exact reals; nothing here rounds. */
module EdaEngine {
  import opened Wrappers

  // ---------------------------------------------------------------------
  // Tables
  // ---------------------------------------------------------------------

  /** A column is numeric or text; `None` is a missing cell (NaN / None in the frame). */
  datatype Column =
    | NumCol(name: string, nums: seq<Option<real>>)
    | TextCol(name: string, texts: seq<Option<string>>)

  datatype Table = Table(rows: nat, columns: seq<Column>)

  function Height(c: Column): nat
  {
    match c
    case NumCol(_, v) => |v|
    case TextCol(_, v) => |v|
  }

  /** Every column has one cell per row, and column names are distinct (the CSV loader renames repeated headers). */
  predicate WellFormed(t: Table)
  {
    && (forall i :: 0 <= i < |t.columns| ==> Height(t.columns[i]) == t.rows)
    && (forall i, j :: 0 <= i < j < |t.columns| ==> t.columns[i].name != t.columns[j].name)
  }

  datatype EdaError =
    | ColumnNotFound(column: string)
    | NotNumeric(column: string)
    | BinsNotPositive(bins: int)
    | EmptyInput

  /** `df[name]`: the position of the column called `name`, if there is one. */
  function FindColumn(cols: seq<Column>, name: string): (r: Option<nat>)
    ensures r.Some? ==> r.value < |cols| && cols[r.value].name == name
    ensures r.None? <==> forall i :: 0 <= i < |cols| ==> cols[i].name != name
    ensures r.Some? ==> forall j :: 0 <= j < r.value ==> cols[j].name != name
  {
    if cols == [] then None
    else if cols[0].name == name then Some(0)
    else
      match FindColumn(cols[1..], name)
      case None => (assert forall i :: 1 <= i < |cols| ==> cols[i] == cols[1..][i - 1]; None)
      case Some(i) => Some(i + 1)
  }

  /** The numeric cells of column `name`, or the error `df[name]` and the numeric code raise. */
  function NumericCells(t: Table, name: string): (r: Result<seq<Option<real>>, EdaError>)
    ensures r.Ok? ==> exists i :: 0 <= i < |t.columns| && t.columns[i] == NumCol(name, r.value)
    ensures r.Err? ==> (r.error == ColumnNotFound(name) <==> forall i :: 0 <= i < |t.columns| ==> t.columns[i].name != name)
    ensures r.Err? ==> r.error == ColumnNotFound(name) || r.error == NotNumeric(name)
    ensures r == Err(NotNumeric(name)) ==> exists i :: 0 <= i < |t.columns| && t.columns[i].name == name && t.columns[i].TextCol?
    ensures forall i :: 0 <= i < |t.columns| && t.columns[i].name == name &&
                        (forall j :: 0 <= j < i ==> t.columns[j].name != name) ==>
                          && (t.columns[i].NumCol? ==> r == Ok(t.columns[i].nums))
                          && (t.columns[i].TextCol? ==> r == Err(NotNumeric(name)))
  {
    match FindColumn(t.columns, name)
    case None => Err(ColumnNotFound(name))
    case Some(i) =>
      match t.columns[i]
      case NumCol(_, v) => Ok(v)
      case TextCol(_, _) => Err(NotNumeric(name))
  }

  // ---------------------------------------------------------------------
  // Missing values
  // ---------------------------------------------------------------------

  /** `series.dropna()`: the present values, in order. */
  function DropNa<T>(cells: seq<Option<T>>): (r: seq<T>)
    ensures |r| <= |cells|
  {
    if cells == [] then []
    else if cells[0].Some? then [cells[0].value] + DropNa(cells[1..])
    else DropNa(cells[1..])
  }

  /** A value is kept exactly when some cell holds it. */
  lemma {:induction false} DropNaHas<T>(cells: seq<Option<T>>, x: T)
    ensures x in DropNa(cells) <==> Some(x) in cells
  {
    if cells != [] {
      DropNaHas(cells[1..], x);
      assert Some(x) in cells <==> cells[0] == Some(x) || Some(x) in cells[1..];
    }
  }

  /** `series.isnull().sum()`. */
  function NullCount<T>(cells: seq<Option<T>>): (r: nat)
    ensures r <= |cells|
    ensures r == 0 <==> forall i :: 0 <= i < |cells| ==> cells[i].Some?
  {
    if cells == [] then 0 else (if cells[0].None? then 1 else 0) + NullCount(cells[1..])
  }

  lemma {:induction false} DropNaAppend<T>(a: seq<Option<T>>, b: seq<Option<T>>)
    ensures DropNa(a + b) == DropNa(a) + DropNa(b)
  {
    if a == [] {
      assert a + b == b;
    } else {
      assert (a + b)[0] == a[0] && (a + b)[1..] == a[1..] + b;
      DropNaAppend(a[1..], b);
    }
  }

  /** A missing cell anywhere in a column changes nothing that is computed from the present values. */
  lemma DropNaMissing<T>(a: seq<Option<T>>, b: seq<Option<T>>)
    ensures DropNa(a + [None] + b) == DropNa(a + b)
  {
    DropNaAppend(a + [None], b);
    DropNaAppend(a, [None]);
    DropNaAppend(a, b);
    var none: seq<Option<T>> := [None];
    assert DropNa(none) == [];
  }

  /** Every cell is either missing or kept. */
  lemma {:induction false} NullCountDropNa<T>(cells: seq<Option<T>>)
    ensures NullCount(cells) + |DropNa(cells)| == |cells|
  {
    if cells != [] {
      NullCountDropNa(cells[1..]);
    }
  }

  // ---------------------------------------------------------------------
  // basic_summary: shape and null counts
  // ---------------------------------------------------------------------

  function ColumnNulls(c: Column): nat
  {
    match c
    case NumCol(_, v) => NullCount(v)
    case TextCol(_, v) => NullCount(v)
  }

  lemma ColumnNullsBounded(t: Table)
    requires WellFormed(t)
    ensures forall i :: 0 <= i < |t.columns| ==> ColumnNulls(t.columns[i]) <= t.rows
  {
    forall i | 0 <= i < |t.columns|
      ensures ColumnNulls(t.columns[i]) <= t.rows
    {
      match t.columns[i]
      case NumCol(_, v) => NullCountDropNa(v);
      case TextCol(_, v) => NullCountDropNa(v);
    }
  }

  datatype Summary = Summary(shape: (nat, nat), nulls: seq<(string, nat)>)

  /** The `shape` and `nulls` entries of `basic_summary`: rows by columns, and each column's missing cells. */
  function BasicSummary(t: Table): (r: Summary)
    requires WellFormed(t)
    ensures r.shape == (t.rows, |t.columns|)
    ensures |r.nulls| == |t.columns|
    ensures forall i :: 0 <= i < |t.columns| ==> r.nulls[i].0 == t.columns[i].name && r.nulls[i].1 <= t.rows
    ensures forall i :: 0 <= i < |t.columns| ==> r.nulls[i] == (t.columns[i].name, ColumnNulls(t.columns[i]))
  {
    ColumnNullsBounded(t);
    Summary((t.rows, |t.columns|),
            seq(|t.columns|, i requires 0 <= i < |t.columns| => (t.columns[i].name, ColumnNulls(t.columns[i]))))
  }

  function SumCounts(xs: seq<(string, nat)>): nat
  {
    if xs == [] then 0 else xs[0].1 + SumCounts(xs[1..])
  }

  lemma {:induction false} SumCountsBounded(xs: seq<(string, nat)>, bound: nat)
    requires forall i :: 0 <= i < |xs| ==> xs[i].1 <= bound
    ensures SumCounts(xs) <= |xs| * bound
  {
    if xs != [] {
      SumCountsBounded(xs[1..], bound);
    }
  }

  /** The total of the null counts is at most rows times columns. */
  lemma NullsAtMostCells(t: Table)
    requires WellFormed(t)
    ensures SumCounts(BasicSummary(t).nulls) <= t.rows * |t.columns|
  {
    var s := BasicSummary(t);
    SumCountsBounded(s.nulls, t.rows);
  }

  // ---------------------------------------------------------------------
  // Sorting and linear-interpolated quantiles
  // ---------------------------------------------------------------------

  predicate Sorted(xs: seq<real>)
  {
    forall i, j :: 0 <= i <= j < |xs| ==> xs[i] <= xs[j]
  }

  /** Places `x` after the values not greater than it. */
  function Insert(x: real, xs: seq<real>): (r: seq<real>)
    requires Sorted(xs)
    ensures |r| == |xs| + 1 && (r[0] == x || (xs != [] && r[0] == xs[0]))
    ensures Sorted(r) && multiset(r) == multiset(xs) + multiset{x}
  {
    if xs == [] || x < xs[0] then [x] + xs
    else
      var rest := Insert(x, xs[1..]);
      assert xs == [xs[0]] + xs[1..];
      SortedCons(xs[0], rest);
      [xs[0]] + rest
  }

  lemma SortedCons(h: real, rest: seq<real>)
    requires Sorted(rest) && (rest == [] || h <= rest[0])
    ensures Sorted([h] + rest)
  {
    var r := [h] + rest;
    forall i, j | 0 <= i <= j < |r|
      ensures r[i] <= r[j]
    {
      if i == 0 && j > 0 {
        assert r[j] == rest[j - 1] && rest[0] <= rest[j - 1];
      } else if i > 0 {
        assert r[i] == rest[i - 1] && r[j] == rest[j - 1];
      }
    }
  }

  /** The values in ascending order, as the quantile computation orders them. */
  function Sort(xs: seq<real>): (r: seq<real>)
    ensures |r| == |xs|
    ensures Sorted(r) && multiset(r) == multiset(xs)
  {
    if xs == [] then []
    else
      assert xs == xs[..|xs| - 1] + [xs[|xs| - 1]];
      Insert(xs[|xs| - 1], Sort(xs[..|xs| - 1]))
  }

  lemma {:induction false} InsertLast(x: real, xs: seq<real>)
    requires Sorted(xs) && Sorted(xs + [x])
    ensures Insert(x, xs) == xs + [x]
  {
    if xs != [] {
      assert xs[0] <= x by {
        assert (xs + [x])[0] == xs[0] && (xs + [x])[|xs|] == x;
      }
      assert Sorted(xs[1..] + [x]) by {
        assert forall i :: 0 <= i <= |xs| - 1 ==> (xs[1..] + [x])[i] == (xs + [x])[i + 1];
      }
      InsertLast(x, xs[1..]);
      assert [xs[0]] + (xs[1..] + [x]) == xs + [x];
    }
  }

  /** Sorting already-ordered values changes nothing. */
  lemma {:induction false} SortSorted(xs: seq<real>)
    requires Sorted(xs)
    ensures Sort(xs) == xs
  {
    if xs != [] {
      var init := xs[..|xs| - 1];
      assert Sorted(init);
      SortSorted(init);
      assert xs == init + [xs[|xs| - 1]];
      InsertLast(xs[|xs| - 1], init);
    }
  }

  lemma MulMono(a: int, b: int, c: nat)
    ensures a <= b ==> a * c <= b * c
  {
  }

  lemma MulCancelLe(a: int, b: int, c: nat)
    requires c > 0 && a * c <= b * c
    ensures a <= b
  {
    MulMono(b + 1, a, c);
  }

  lemma MulCancelLt(a: int, b: int, c: nat)
    requires a * c < b * c
    ensures a < b
  {
    MulMono(b, a, c);
  }

  lemma MulLe(a: int, b: int, c: nat)
    requires a <= b
    ensures a * c <= b * c
  {
    MulMono(a, b, c);
  }

  /** Python's `a // d` and `a % d` for a non-negative `a`, by repeated subtraction. */
  function DivMod(a: nat, d: nat): (p: (nat, nat))
    requires d > 0
    ensures p.0 * d + p.1 == a && p.1 < d
    decreases a
  {
    if a < d then (0, a)
    else
      var r := DivMod(a - d, d);
      (r.0 + 1, r.1)
  }

  /** The interpolation position `(n - 1) * num / den` among `n` values, as a whole index and
      a remainder in `den`-ths. */
  function Position(n: nat, num: nat, den: nat): (p: (nat, nat))
    requires n > 0 && 0 < den && num <= den
    ensures p.0 <= n - 1 && p.1 < den
    ensures p.1 != 0 ==> p.0 < n - 1
    ensures p.0 * den + p.1 == (n - 1) * num
  {
    var p := DivMod((n - 1) * num, den);
    PositionBounds(n - 1, num, den, p.0, p.1);
    p
  }

  lemma PositionBounds(m: nat, num: nat, den: nat, q: nat, r: nat)
    requires 0 < den && num <= den
    requires q * den + r == m * num
    ensures q <= m
    ensures r != 0 ==> q < m
  {
    MulLe(num, den, m);
    MulCancelLe(q, m, den);
    if r != 0 {
      MulCancelLt(q, m, den);
    }
  }

  /** A larger fraction never moves the position back. */
  lemma PositionMonotone(n: nat, num1: nat, num2: nat, den: nat)
    requires n > 0 && 0 < den && num1 <= num2 <= den
    ensures var p1 := Position(n, num1, den);
            var p2 := Position(n, num2, den);
            p1.0 < p2.0 || (p1.0 == p2.0 && p1.1 <= p2.1)
  {
    var p1 := Position(n, num1, den);
    var p2 := Position(n, num2, den);
    MulLeLeft(n - 1, num1, num2);
    QuotRemMonotone(p1.0, p1.1, p2.0, p2.1, den, (n - 1) * num1, (n - 1) * num2);
  }

  lemma MulLeLeft(c: nat, a: int, b: int)
    requires a <= b
    ensures c * a <= c * b
  {
    MulMono(a, b, c);
    assert a * c == c * a && b * c == c * b;
  }

  /** Quotient and remainder by the same divisor grow together with the dividend. */
  lemma QuotRemMonotone(q1: int, r1: int, q2: int, r2: int, d: nat, a1: int, a2: int)
    requires d > 0 && 0 <= r1 < d && 0 <= r2 < d
    requires q1 * d + r1 == a1 && q2 * d + r2 == a2 && a1 <= a2
    ensures q1 < q2 || (q1 == q2 && r1 <= r2)
  {
    assert (q2 + 1) * d == q2 * d + d;
    MulCancelLt(q1, q2 + 1, d);
  }

  lemma RealMulNonneg(x: real, y: real)
    requires x >= 0.0 && y >= 0.0
    ensures x * y >= 0.0
  {
  }

  /** Linear interpolation between `a` and `b` at fraction `f`. */
  function Lerp(a: real, b: real, f: real): (r: real)
    requires a <= b && 0.0 <= f <= 1.0
    ensures a <= r <= b
  {
    RealMulNonneg(f, b - a);
    RealMulNonneg(1.0 - f, b - a);
    a + f * (b - a)
  }

  lemma LerpMonotone(a: real, b: real, f: real, g: real)
    requires a <= b && 0.0 <= f <= g <= 1.0
    ensures Lerp(a, b, f) <= Lerp(a, b, g)
  {
    RealMulNonneg(g - f, b - a);
  }

  lemma FractionBounds(rem: nat, den: nat)
    requires rem < den
    ensures 0.0 <= rem as real / den as real < 1.0
  {
  }

  lemma FractionMonotone(r1: nat, r2: nat, den: nat)
    requires r1 <= r2 && den > 0
    ensures r1 as real / den as real <= r2 as real / den as real
  {
  }

  /** `Series.quantile(num / den)` with linear interpolation, over ascending values. */
  function Quantile(xs: seq<real>, num: nat, den: nat): (r: real)
    requires Sorted(xs) && |xs| > 0 && 0 < den && num <= den
    ensures xs[0] <= r <= xs[|xs| - 1]
  {
    var p := Position(|xs|, num, den);
    if p.1 == 0 then xs[p.0]
    else
      FractionBounds(p.1, den);
      Lerp(xs[p.0], xs[p.0 + 1], p.1 as real / den as real)
  }

  /** A higher quantile of the same values is never smaller. */
  lemma QuantileMonotone(xs: seq<real>, num1: nat, num2: nat, den: nat)
    requires Sorted(xs) && |xs| > 0 && 0 < den && num1 <= num2 <= den
    ensures Quantile(xs, num1, den) <= Quantile(xs, num2, den)
  {
    var p1 := Position(|xs|, num1, den);
    var p2 := Position(|xs|, num2, den);
    PositionMonotone(|xs|, num1, num2, den);
    if p1.0 < p2.0 {
      assert Quantile(xs, num1, den) <= xs[p1.0 + 1];
      assert xs[p2.0] <= Quantile(xs, num2, den);
    } else if p1.1 != 0 {
      FractionBounds(p1.1, den);
      FractionBounds(p2.1, den);
      FractionMonotone(p1.1, p2.1, den);
      LerpMonotone(xs[p1.0], xs[p1.0 + 1], p1.1 as real / den as real, p2.1 as real / den as real);
    }
  }

  // ---------------------------------------------------------------------
  // outliers_iqr
  // ---------------------------------------------------------------------

  datatype Fences = Fences(q1: real, q3: real, iqr: real, lower: real, upper: real)

  /** Quartiles, their spread and the fences 1.5 spreads beyond them, for non-empty values. */
  function FencesOf(values: seq<real>): (f: Fences)
    requires |values| > 0
    ensures f.iqr == f.q3 - f.q1 && f.iqr >= 0.0
    ensures f.lower == f.q1 - 1.5 * f.iqr && f.upper == f.q3 + 1.5 * f.iqr
    ensures f.lower <= f.q1 <= f.q3 <= f.upper
  {
    var xs := Sort(values);
    assert |xs| == |values| by {
      assert |multiset(xs)| == |multiset(values)|;
    }
    QuantileMonotone(xs, 1, 3, 4);
    var q1 := Quantile(xs, 1, 4);
    var q3 := Quantile(xs, 3, 4);
    Fences(q1, q3, q3 - q1, q1 - 1.5 * (q3 - q1), q3 + 1.5 * (q3 - q1))
  }

  /** The mask `(s < lower) | (s > upper)`: values on a fence are not outliers. */
  predicate IsOutlier(x: real, f: Fences)
  {
    x < f.lower || x > f.upper
  }

  /** `s[mask]`: the outliers in their original order. */
  function Outliers(values: seq<real>, f: Fences): (r: seq<real>)
    ensures |r| <= |values|
    ensures forall x :: x in r <==> x in values && IsOutlier(x, f)
  {
    if values == [] then []
    else
      var rest := Outliers(values[1..], f);
      assert forall y :: y in values <==> y == values[0] || y in values[1..];
      if IsOutlier(values[0], f) then [values[0]] + rest else rest
  }

  /** Filtering keeps the original order: the outliers of a concatenation are the outliers of each part, in turn. */
  lemma {:induction false} OutliersAppend(a: seq<real>, b: seq<real>, f: Fences)
    ensures Outliers(a + b, f) == Outliers(a, f) + Outliers(b, f)
  {
    if a == [] {
      assert a + b == b;
    } else {
      assert (a + b)[0] == a[0] && (a + b)[1..] == a[1..] + b;
      OutliersAppend(a[1..], b, f);
    }
  }

  /** `Series.head(n)` (and `iloc[:n]`): the first `n` entries; a negative `n` drops that many from the end. */
  function Head<T>(xs: seq<T>, n: int): (r: seq<T>)
    ensures |r| <= |xs| && r == xs[..|r|]
    ensures n >= 0 ==> |r| == if n <= |xs| then n else |xs|
    ensures n < 0 ==> |r| == if -n <= |xs| then |xs| + n else 0
  {
    if n >= 0 then (if n <= |xs| then xs[..n] else xs)
    else if -n <= |xs| then xs[..|xs| + n] else []
  }

  /** The dictionary `outliers_iqr` returns; `fences` is `None` where pandas yields NaN (no values). */
  datatype OutlierReport = OutlierReport(fences: Option<Fences>, count: nat, sample: seq<real>)

  /** The IQR rule over the present values of a column. */
  function OutlierReportOf(values: seq<real>): (r: OutlierReport)
    ensures r.fences.None? <==> values == []
    ensures values != [] ==> r.fences == Some(FencesOf(values))
    ensures r.fences.Some? ==> r.count == |Outliers(values, r.fences.value)| && |r.sample| <= r.count
    ensures r.fences.Some? ==> r.sample == Outliers(values, r.fences.value)[..|r.sample|]
    ensures r.fences.None? ==> r.count == 0 && r.sample == []
    ensures |r.sample| == if r.count < 10 then r.count else 10
    ensures forall x :: x in r.sample ==> x in values && r.fences.Some? && IsOutlier(x, r.fences.value)
  {
    if values == [] then OutlierReport(None, 0, [])
    else
      var f := FencesOf(values);
      var out := Outliers(values, f);
      OutlierReport(Some(f), |out|, Head(out, 10))
  }

  /** `outliers_iqr(df, column)`. */
  function OutliersIqr(t: Table, column: string): (r: Result<OutlierReport, EdaError>)
    ensures r.Ok? <==> NumericCells(t, column).Ok?
    ensures r.Ok? ==> r.value == OutlierReportOf(DropNa(NumericCells(t, column).value))
  {
    match NumericCells(t, column)
    case Err(e) => Err(e)
    case Ok(cells) => Ok(OutlierReportOf(DropNa(cells)))
  }

  /** A missing cell inserted anywhere in the column leaves the report unchanged. */
  lemma OutliersIgnoreMissing(a: seq<Option<real>>, b: seq<Option<real>>)
    ensures OutlierReportOf(DropNa(a + [None] + b)) == OutlierReportOf(DropNa(a + b))
  {
    DropNaMissing(a, b);
  }

  /** The worked example `[1, 2, 3, 4, 5, 100]` (written as two halves, which keeps the verifier
      from evaluating every function applied to it eagerly). */
  const Sample: seq<real> := [1.0, 2.0, 3.0] + [4.0, 5.0, 100.0]

  /** The quartiles of the worked example. */
  lemma ExampleQuartiles()
    ensures Quantile(Sample, 1, 4) == 2.25
    ensures Quantile(Sample, 3, 4) == 4.75
  {
    assert Sample == [1.0, 2.0, 3.0, 4.0, 5.0, 100.0];
    assert 5 * 1 / 4 == 1 && 5 * 1 % 4 == 1;
    assert 5 * 3 / 4 == 3 && 5 * 3 % 4 == 3;
  }

  /** The fences of the worked example: quartiles 2.25 and 4.75, fences -1.5 and 8.5. */
  lemma ExampleFences()
    ensures FencesOf(Sample) == Fences(2.25, 4.75, 2.5, -1.5, 8.5)
  {
    assert Sample == [1.0, 2.0, 3.0, 4.0, 5.0, 100.0];
    assert Sorted(Sample);
    SortSorted(Sample);
    ExampleQuartiles();
  }

  lemma ExampleOutliers()
    ensures Outliers(Sample, Fences(2.25, 4.75, 2.5, -1.5, 8.5)) == [100.0]
  {
    var v := Sample;
    assert v == [1.0, 2.0, 3.0, 4.0, 5.0, 100.0];
    var f := Fences(2.25, 4.75, 2.5, -1.5, 8.5);
    assert Outliers(v[5..], f) == [100.0];
    assert Outliers(v[4..], f) == [100.0] by { assert v[4..][1..] == v[5..]; }
    assert Outliers(v[3..], f) == [100.0] by { assert v[3..][1..] == v[4..]; }
    assert Outliers(v[2..], f) == [100.0] by { assert v[2..][1..] == v[3..]; }
    assert Outliers(v[1..], f) == [100.0] by { assert v[1..][1..] == v[2..]; }
  }

  /** The worked example has the single outlier 100. */
  lemma OutliersExample()
    ensures OutlierReportOf(Sample) == OutlierReport(Some(Fences(2.25, 4.75, 2.5, -1.5, 8.5)), 1, [100.0])
  {
    ExampleFences();
    ExampleOutliers();
  }

  // ---------------------------------------------------------------------
  // column_distribution: equal-width histogram
  // ---------------------------------------------------------------------

  function Min(xs: seq<real>): (m: real)
    requires |xs| > 0
    ensures m in xs && forall x :: x in xs ==> m <= x
  {
    if |xs| == 1 then xs[0]
    else
      var rest := Min(xs[1..]);
      assert forall x :: x in xs ==> x == xs[0] || x in xs[1..];
      if xs[0] <= rest then xs[0] else rest
  }

  function Max(xs: seq<real>): (m: real)
    requires |xs| > 0
    ensures m in xs && forall x :: x in xs ==> x <= m
  {
    if |xs| == 1 then xs[0]
    else
      var rest := Max(xs[1..]);
      assert forall x :: x in xs ==> x == xs[0] || x in xs[1..];
      if xs[0] >= rest then xs[0] else rest
  }

  /** The histogram range: smallest to largest value, widened by one half on each side when
      they coincide, and (0, 1) when there are no values. */
  function OuterEdges(xs: seq<real>): (r: (real, real))
    ensures r.0 < r.1
    ensures forall x :: x in xs ==> r.0 <= x <= r.1
    ensures xs == [] ==> r == (0.0, 1.0)
    ensures xs != [] ==> (r.0 in xs && r.1 in xs) || (r.1 - r.0 == 1.0 && forall x :: x in xs ==> x == r.0 + 0.5)
  {
    if xs == [] then (0.0, 1.0)
    else
      var lo := Min(xs);
      var hi := Max(xs);
      if lo == hi then (lo - 0.5, hi + 0.5) else (lo, hi)
  }

  /** The width of each of `bins` equal bins over `[lo, hi]`. */
  function BinWidth(lo: real, hi: real, bins: nat): (w: real)
    requires lo < hi && bins > 0
    ensures w > 0.0 && w * (bins as real) == hi - lo
  {
    (hi - lo) / (bins as real)
  }

  /** The `i`-th of the `bins + 1` evenly spaced edges from `lo` to `hi` (`linspace`). */
  function Edge(lo: real, hi: real, bins: nat, i: int): real
    requires lo < hi && bins > 0
  {
    lo + (i as real) * BinWidth(lo, hi, bins)
  }

  lemma RealMulLe(a: real, b: real, k: real)
    requires a <= b && k >= 0.0
    ensures a * k <= b * k
  {
    RealMulNonneg(b - a, k);
  }

  lemma RealMulLt(a: real, b: real, k: real)
    requires a < b && k > 0.0
    ensures a * k < b * k
  {
  }

  /** Later edges lie strictly further right. */
  lemma EdgeMonotone(lo: real, hi: real, bins: nat, i: int, j: int)
    requires lo < hi && bins > 0 && i < j
    ensures Edge(lo, hi, bins, i) < Edge(lo, hi, bins, j)
  {
    RealMulLt(i as real, j as real, BinWidth(lo, hi, bins));
  }

  lemma EdgeEnds(lo: real, hi: real, bins: nat)
    requires lo < hi && bins > 0
    ensures Edge(lo, hi, bins, 0) == lo && Edge(lo, hi, bins, bins) == hi
  {
  }

  /** The edges returned next to the counts: `bins + 1` of them, from `lo` to `hi`, increasing. */
  function Edges(lo: real, hi: real, bins: nat): (r: seq<real>)
    requires lo < hi && bins > 0
    ensures |r| == bins + 1 && r[0] == lo && r[bins] == hi
    ensures forall i, j :: 0 <= i < j <= bins ==> r[i] < r[j]
  {
    EdgeEnds(lo, hi, bins);
    forall i, j | 0 <= i < j <= bins
      ensures Edge(lo, hi, bins, i) < Edge(lo, hi, bins, j)
    {
      EdgeMonotone(lo, hi, bins, i, j);
    }
    seq(bins + 1, i => Edge(lo, hi, bins, i))
  }

  /** Bin `b` holds the values from its left edge up to but excluding its right edge; the last
      bin also holds its right edge. */
  predicate InBin(x: real, lo: real, hi: real, bins: nat, b: int)
    requires lo < hi && bins > 0
  {
    && 0 <= b < bins
    && Edge(lo, hi, bins, b) <= x
    && (x < Edge(lo, hi, bins, b + 1) || (b == bins - 1 && x <= hi))
  }

  /** The bin numpy computes for `x`: the whole part of its distance from `lo` in bin widths,
      with `hi` itself moved into the last bin. */
  function BinIndex(x: real, lo: real, hi: real, bins: nat): (b: nat)
    requires lo < hi && bins > 0 && lo <= x <= hi
    ensures InBin(x, lo, hi, bins, b)
  {
    var w := BinWidth(lo, hi, bins);
    var f := (x - lo) / w;
    BinIndexBounds(x, lo, hi, bins, f);
    if f.Floor >= bins then bins - 1 else f.Floor
  }

  lemma BinIndexBounds(x: real, lo: real, hi: real, bins: nat, f: real)
    requires lo < hi && bins > 0 && lo <= x <= hi
    requires f == (x - lo) / BinWidth(lo, hi, bins)
    ensures 0 <= f.Floor
    ensures f.Floor >= bins ==> InBin(x, lo, hi, bins, bins - 1)
    ensures f.Floor < bins ==> InBin(x, lo, hi, bins, f.Floor)
  {
    var w := BinWidth(lo, hi, bins);
    var b := f.Floor;
    QuotientBounds(x - lo, w, bins as real, f);
    FloorScaled(f, w);
    if b >= bins {
      assert x == hi by {
        RealMulLe(bins as real, f, w);
      }
      EdgeMonotone(lo, hi, bins, bins - 1, bins);
      EdgeEnds(lo, hi, bins);
    } else {
      assert Edge(lo, hi, bins, b) == lo + (b as real) * w;
      assert Edge(lo, hi, bins, b + 1) == lo + ((b + 1) as real) * w;
    }
  }

  /** The quotient `d / w` of a distance `0 <= d <= n * w` lies between 0 and `n`. */
  lemma QuotientBounds(d: real, w: real, n: real, f: real)
    requires w > 0.0 && 0.0 <= d <= n * w && f == d / w
    ensures f * w == d && 0.0 <= f <= n
  {
    if f > n {
      RealMulLt(n, f, w);
    }
  }

  /** Scaling by a positive width keeps `x` between its whole part and the next integer. */
  lemma FloorScaled(f: real, w: real)
    requires w > 0.0
    ensures (f.Floor as real) * w <= f * w < ((f.Floor + 1) as real) * w
  {
    RealMulLe(f.Floor as real, f, w);
    RealMulLt(f, (f.Floor + 1) as real, w);
  }

  /** Two bins that both hold `x` are the same bin. */
  lemma InBinUnique(x: real, lo: real, hi: real, bins: nat, b1: int, b2: int)
    requires lo < hi && bins > 0
    requires InBin(x, lo, hi, bins, b1) && InBin(x, lo, hi, bins, b2)
    ensures b1 == b2
  {
    EdgeEnds(lo, hi, bins);
    if b1 < b2 {
      EdgeMonotone(lo, hi, bins, b1 + 1, b2);
      if b1 + 1 < bins {
        EdgeMonotone(lo, hi, bins, b1 + 1, bins);
      }
    } else if b2 < b1 {
      EdgeMonotone(lo, hi, bins, b2 + 1, b1);
      if b2 + 1 < bins {
        EdgeMonotone(lo, hi, bins, b2 + 1, bins);
      }
    }
  }

  predicate InRange(values: seq<real>, lo: real, hi: real)
  {
    forall x :: x in values ==> lo <= x <= hi
  }

  function Sum(c: seq<nat>): nat
  {
    if c == [] then 0 else c[0] + Sum(c[1..])
  }

  lemma {:induction false} SumZeros(n: nat)
    ensures Sum(seq(n, _ => 0)) == 0
  {
    if n > 0 {
      assert seq(n, _ => 0)[1..] == seq(n - 1, _ => 0);
      SumZeros(n - 1);
    }
  }

  lemma {:induction false} SumIncrement(c: seq<nat>, b: nat)
    requires b < |c|
    ensures Sum(c[b := c[b] + 1]) == Sum(c) + 1
  {
    if b > 0 {
      assert c[b := c[b] + 1][1..] == c[1..][b - 1 := c[b] + 1];
      SumIncrement(c[1..], b - 1);
    }
  }

  /** The histogram counts: each value adds one to the bin that holds it. */
  function Counts(values: seq<real>, lo: real, hi: real, bins: nat): (c: seq<nat>)
    requires lo < hi && bins > 0 && InRange(values, lo, hi)
    ensures |c| == bins && Sum(c) == |values|
  {
    if values == [] then
      SumZeros(bins);
      seq(bins, _ => 0)
    else
      var init := values[..|values| - 1];
      var x := values[|values| - 1];
      assert forall y :: y in init ==> y in values;
      assert x in values;
      var c := Counts(init, lo, hi, bins);
      var b := BinIndex(x, lo, hi, bins);
      SumIncrement(c, b);
      c[b := c[b] + 1]
  }

  /** How many values bin `b` holds, by its edges. */
  function CountInBin(values: seq<real>, lo: real, hi: real, bins: nat, b: int): nat
    requires lo < hi && bins > 0
  {
    if values == [] then 0
    else
      CountInBin(values[..|values| - 1], lo, hi, bins, b)
        + (if InBin(values[|values| - 1], lo, hi, bins, b) then 1 else 0)
  }

  /** Each count is the number of values lying between that bin's edges. */
  lemma {:induction false} CountsPerBin(values: seq<real>, lo: real, hi: real, bins: nat, b: nat)
    requires lo < hi && bins > 0 && InRange(values, lo, hi) && b < bins
    ensures Counts(values, lo, hi, bins)[b] == CountInBin(values, lo, hi, bins, b)
  {
    if values != [] {
      var init := values[..|values| - 1];
      var x := values[|values| - 1];
      assert forall y :: y in init ==> y in values;
      CountsPerBin(init, lo, hi, bins, b);
      assert x in values;
      var bx := BinIndex(x, lo, hi, bins);
      if InBin(x, lo, hi, bins, b) {
        InBinUnique(x, lo, hi, bins, b, bx);
      }
    }
  }

  /** The `counts` and `bins` lists of `column_distribution`. */
  datatype Histogram = Histogram(counts: seq<nat>, edges: seq<real>)

  /** `np.histogram(values, bins)` for a positive bin count. */
  function HistogramOf(values: seq<real>, bins: nat): (h: Histogram)
    requires bins > 0
    ensures |h.counts| == bins && |h.edges| == bins + 1
    ensures Sum(h.counts) == |values|
    ensures forall x :: x in values ==> h.edges[0] <= x <= h.edges[bins]
    ensures forall i, j :: 0 <= i < j <= bins ==> h.edges[i] < h.edges[j]
  {
    var (lo, hi) := OuterEdges(values);
    Histogram(Counts(values, lo, hi, bins), Edges(lo, hi, bins))
  }

  /** Each count is the number of values between its two edges (the last bin closed on the right). */
  lemma HistogramCounts(values: seq<real>, bins: nat, b: nat)
    requires 0 <= b < bins
    ensures var h := HistogramOf(values, bins);
            var (lo, hi) := OuterEdges(values);
            h.counts[b] == |set i | 0 <= i < |values| && InBin(values[i], lo, hi, bins, b)|
  {
    var (lo, hi) := OuterEdges(values);
    CountsPerBin(values, lo, hi, bins, b);
    CountInBinSet(values, lo, hi, bins, b);
  }

  lemma {:induction false} CountInBinSet(values: seq<real>, lo: real, hi: real, bins: nat, b: int)
    requires lo < hi && bins > 0
    ensures CountInBin(values, lo, hi, bins, b) == |set i | 0 <= i < |values| && InBin(values[i], lo, hi, bins, b)|
  {
    if values != [] {
      var n := |values| - 1;
      var init := values[..n];
      CountInBinSet(init, lo, hi, bins, b);
      var s0 := set i | 0 <= i < n && InBin(init[i], lo, hi, bins, b);
      var s := set i | 0 <= i < |values| && InBin(values[i], lo, hi, bins, b);
      assert s0 == set i | 0 <= i < n && InBin(values[i], lo, hi, bins, b);
      if InBin(values[n], lo, hi, bins, b) {
        assert s == s0 + {n};
      } else {
        assert s == s0;
      }
    }
  }

  /** `column_distribution(df, column, bins)`: the bin count is checked before the values are,
      and text cells fail only when there is at least one of them. */
  function ColumnDistribution(t: Table, column: string, bins: int): (r: Result<Histogram, EdaError>)
    ensures r.Err? && r.error == ColumnNotFound(column) <==> forall i :: 0 <= i < |t.columns| ==> t.columns[i].name != column
    ensures r.Err? && r.error.BinsNotPositive? ==> bins < 1
    ensures bins < 1 ==> r.Err?
    ensures r.Ok? ==> |r.value.counts| == bins && |r.value.edges| == bins + 1
    ensures NumericCells(t, column).Ok? && bins >= 1 ==>
              r == Ok(HistogramOf(DropNa(NumericCells(t, column).value), bins))
  {
    match FindColumn(t.columns, column)
    case None => Err(ColumnNotFound(column))
    case Some(i) =>
      if bins < 1 then Err(BinsNotPositive(bins))
      else
        match t.columns[i]
        case NumCol(_, v) => Ok(HistogramOf(DropNa(v), bins))
        case TextCol(_, v) => if DropNa(v) == [] then Ok(HistogramOf([], bins)) else Err(NotNumeric(column))
  }

  /** Missing cells do not enter the histogram. */
  lemma HistogramIgnoresMissing(a: seq<Option<real>>, b: seq<Option<real>>, bins: nat)
    requires bins > 0
    ensures HistogramOf(DropNa(a + [None] + b), bins) == HistogramOf(DropNa(a + b), bins)
  {
    DropNaMissing(a, b);
  }

  // ---------------------------------------------------------------------
  // top_frequent_values: value_counts().head(n)
  // ---------------------------------------------------------------------

  /** The distinct values, in order of first occurrence. */
  function Uniques<T(==,!new)>(xs: seq<T>): (u: seq<T>)
    ensures forall v :: v in u <==> v in xs
    ensures forall i, j :: 0 <= i < j < |u| ==> u[i] != u[j]
    ensures |u| <= |xs|
  {
    if xs == [] then []
    else
      var init := xs[..|xs| - 1];
      var x := xs[|xs| - 1];
      assert xs == init + [x];
      var u := Uniques(init);
      if x in u then u else u + [x]
  }

  /** Each key with the number of times it occurs in `xs`. */
  function Tallies<T(==)>(xs: seq<T>, keys: seq<T>): seq<(T, nat)>
  {
    seq(|keys|, i requires 0 <= i < |keys| => (keys[i], multiset(xs)[keys[i]]))
  }

  predicate NonIncreasing<T>(ps: seq<(T, nat)>)
  {
    forall i, j :: 0 <= i < j < |ps| ==> ps[i].1 >= ps[j].1
  }

  /** Places `p` after every entry whose count is at least its own, so equal counts keep their order. */
  function InsertByCount<T(==)>(p: (T, nat), s: seq<(T, nat)>): (r: seq<(T, nat)>)
    requires NonIncreasing(s)
    ensures |r| == |s| + 1 && (r[0] == p || (s != [] && r[0] == s[0]))
    ensures NonIncreasing(r) && multiset(r) == multiset(s) + multiset{p}
  {
    if s == [] || p.1 > s[0].1 then [p] + s
    else
      var rest := InsertByCount(p, s[1..]);
      assert s == [s[0]] + s[1..];
      NonIncreasingCons(s[0], rest);
      [s[0]] + rest
  }

  lemma NonIncreasingCons<T>(h: (T, nat), rest: seq<(T, nat)>)
    requires NonIncreasing(rest) && (rest == [] || h.1 >= rest[0].1)
    ensures NonIncreasing([h] + rest)
  {
    var r := [h] + rest;
    forall i, j | 0 <= i < j < |r|
      ensures r[i].1 >= r[j].1
    {
      if i == 0 {
        assert r[j] == rest[j - 1];
      } else {
        assert r[i] == rest[i - 1] && r[j] == rest[j - 1];
      }
    }
  }

  /** Orders entries by decreasing count; entries with equal counts keep their relative order. */
  function SortByCount<T(==)>(ps: seq<(T, nat)>): (r: seq<(T, nat)>)
    ensures |r| == |ps| && NonIncreasing(r) && multiset(r) == multiset(ps)
  {
    if ps == [] then []
    else
      assert ps == ps[..|ps| - 1] + [ps[|ps| - 1]];
      InsertByCount(ps[|ps| - 1], SortByCount(ps[..|ps| - 1]))
  }

  lemma {:induction false} DistinctMultiset<U>(s: seq<U>, p: U)
    requires forall i, j :: 0 <= i < j < |s| ==> s[i] != s[j]
    ensures multiset(s)[p] <= 1
  {
    if s != [] {
      assert s == [s[0]] + s[1..];
      DistinctMultiset(s[1..], p);
      if s[0] == p {
        assert p !in s[1..];
      }
    }
  }

  lemma MultisetDistinct<U>(s: seq<U>)
    requires forall p :: multiset(s)[p] <= 1
    ensures forall i, j :: 0 <= i < j < |s| ==> s[i] != s[j]
  {
    forall i, j | 0 <= i < j < |s|
      ensures s[i] != s[j]
    {
      assert s == s[..j] + s[j..];
      assert multiset(s) == multiset(s[..j]) + multiset(s[j..]);
      assert s[j] in multiset(s[j..]);
      assert multiset(s)[s[j]] <= 1;
      assert s[j] !in multiset(s[..j]);
      assert s[i] in s[..j];
    }
  }

  /** `series.value_counts()`: every distinct value once, with its number of occurrences, most frequent first. */
  function ValueCounts<T(==,!new)>(xs: seq<T>): (r: seq<(T, nat)>)
    ensures |r| <= |xs| && NonIncreasing(r)
    ensures forall i :: 0 <= i < |r| ==> r[i].0 in xs && r[i].1 == multiset(xs)[r[i].0] && r[i].1 >= 1
    ensures forall v :: v in xs ==> exists i :: 0 <= i < |r| && r[i].0 == v
    ensures forall i, j :: 0 <= i < j < |r| ==> r[i].0 != r[j].0
  {
    var u := Uniques(xs);
    var ps := Tallies(xs, u);
    var r := SortByCount(ps);
    ValueCountsFacts(xs, u, ps, r);
    r
  }

  lemma ValueCountsFacts<T(!new)>(xs: seq<T>, u: seq<T>, ps: seq<(T, nat)>, r: seq<(T, nat)>)
    requires u == Uniques(xs) && ps == Tallies(xs, u) && multiset(r) == multiset(ps)
    ensures forall i :: 0 <= i < |r| ==> r[i].0 in xs && r[i].1 == multiset(xs)[r[i].0] && r[i].1 >= 1
    ensures forall v :: v in xs ==> exists i :: 0 <= i < |r| && r[i].0 == v
    ensures forall i, j :: 0 <= i < j < |r| ==> r[i].0 != r[j].0
  {
    forall i | 0 <= i < |r|
      ensures r[i].0 in xs && r[i].1 == multiset(xs)[r[i].0] && r[i].1 >= 1
    {
      assert r[i] in multiset(ps);
    }
    forall v | v in xs
      ensures exists i :: 0 <= i < |r| && r[i].0 == v
    {
      var k :| 0 <= k < |u| && u[k] == v;
      assert ps[k] in multiset(r);
    }
    forall p {
      DistinctMultiset(ps, p);
    }
    MultisetDistinct(r);
  }

  /** `value_counts().head(n)` over the present values: at most `n` entries for a non-negative `n`,
      the true counts, most frequent first, and no value left out that occurs more often than one kept. */
  function TopFrequent<T(==,!new)>(xs: seq<T>, n: int): (r: seq<(T, nat)>)
    ensures n >= 0 ==> |r| == if n <= |ValueCounts(xs)| then n else |ValueCounts(xs)|
    ensures |r| <= |ValueCounts(xs)| && r == ValueCounts(xs)[..|r|]
    ensures NonIncreasing(r)
    ensures forall i :: 0 <= i < |r| ==> r[i].0 in xs && r[i].1 == multiset(xs)[r[i].0] && r[i].1 >= 1
    ensures forall i, j :: 0 <= i < j < |r| ==> r[i].0 != r[j].0
  {
    var counts := ValueCounts(xs);
    var r := Head(counts, n);
    assert forall i :: 0 <= i < |r| ==> r[i] == counts[i];
    r
  }

  /** A value that is not among the kept entries occurs no more often than any kept one. */
  lemma TopFrequentIsTop<T(!new)>(xs: seq<T>, n: int, v: T)
    requires v in xs && forall i :: 0 <= i < |TopFrequent(xs, n)| ==> TopFrequent(xs, n)[i].0 != v
    ensures forall i :: 0 <= i < |TopFrequent(xs, n)| ==> multiset(xs)[v] <= TopFrequent(xs, n)[i].1
  {
    var all := ValueCounts(xs);
    var r := TopFrequent(xs, n);
    var k :| 0 <= k < |all| && all[k].0 == v;
    assert forall i :: 0 <= i < |r| ==> r[i] == all[i];
    assert k >= |r|;
    forall i | 0 <= i < |r|
      ensures multiset(xs)[v] <= r[i].1
    {
      assert r[i] == all[i];
    }
  }

  /** When `n` is at least the number of distinct values, every value is listed. */
  lemma TopFrequentComplete<T(!new)>(xs: seq<T>, n: int, v: T)
    requires v in xs && n >= |xs|
    ensures exists i :: 0 <= i < |TopFrequent(xs, n)| && TopFrequent(xs, n)[i].0 == v
  {
    var all := ValueCounts(xs);
    assert TopFrequent(xs, n) == all;
  }

  /** The mapping `top_frequent_values` returns, keyed by numbers or by text as the column holds. */
  datatype Frequencies = NumFreq(nums: seq<(real, nat)>) | TextFreq(texts: seq<(string, nat)>)

  function FrequenciesOf(c: Column, n: int): Frequencies
  {
    match c
    case NumCol(_, v) => NumFreq(TopFrequent(DropNa(v), n))
    case TextCol(_, v) => TextFreq(TopFrequent(DropNa(v), n))
  }

  /** `top_frequent_values(df, column, n)`: the frequency table of the column's present cells. */
  function TopFrequentValues(t: Table, column: string, n: int): (r: Result<Frequencies, EdaError>)
    ensures r.Err? <==> forall i :: 0 <= i < |t.columns| ==> t.columns[i].name != column
    ensures r.Err? ==> r.error == ColumnNotFound(column)
    ensures r.Ok? ==> exists i :: 0 <= i < |t.columns| && t.columns[i].name == column &&
                        FrequenciesOf(t.columns[i], n) == r.value
  {
    match FindColumn(t.columns, column)
    case None => Err(ColumnNotFound(column))
    case Some(i) => Ok(FrequenciesOf(t.columns[i], n))
  }

  // ---------------------------------------------------------------------
  // kmeans_clusters: the guard around the clustering
  // ---------------------------------------------------------------------

  /** The result of `kmeans_clusters`: the "not enough numeric rows" message with the row count,
      or the effective cluster count and the first labels. */
  datatype Clustering =
    | NotEnoughRows(samples: nat)
    | Clustered(k: nat, labelsSample: seq<nat>)

  predicate IsNumeric(c: Column)
  {
    c.NumCol?
  }

  /** `df.select_dtypes(include=[np.number]).columns`: the numeric columns, in table order. */
  function NumericColumns(cols: seq<Column>): (r: seq<Column>)
    ensures forall c :: c in r <==> c in cols && IsNumeric(c)
    ensures |r| <= |cols|
  {
    if cols == [] then []
    else
      var rest := NumericColumns(cols[1..]);
      assert forall c :: c in cols <==> c == cols[0] || c in cols[1..];
      if IsNumeric(cols[0]) then [cols[0]] + rest else rest
  }

  /** Selecting numeric columns distributes over concatenation: the numeric columns of `a` come
      first, in their order, then those of `b`. */
  lemma {:induction false} NumericColumnsAppend(a: seq<Column>, b: seq<Column>)
    ensures NumericColumns(a + b) == NumericColumns(a) + NumericColumns(b)
  {
    if a == [] {
      assert a + b == b;
    } else {
      assert (a + b)[0] == a[0] && (a + b)[1..] == a[1..] + b;
      NumericColumnsAppend(a[1..], b);
    }
  }

  /** Appending one column adds it at the end exactly when it is numeric. */
  lemma NumericColumnsSnoc(cols: seq<Column>, c: Column)
    ensures NumericColumns(cols + [c]) == NumericColumns(cols) + (if IsNumeric(c) then [c] else [])
  {
    NumericColumnsAppend(cols, [c]);
    assert [c][1..] == [];
  }

  /** `df[names]`: the named columns in the order given, or the first name that is missing. */
  function SelectColumns(cols: seq<Column>, names: seq<string>): (r: Result<seq<Column>, EdaError>)
    ensures r.Ok? ==> |r.value| == |names| && forall k :: 0 <= k < |names| ==> r.value[k] in cols && r.value[k].name == names[k]
    ensures r.Err? ==> exists k :: 0 <= k < |names| && r.error == ColumnNotFound(names[k]) &&
                         forall i :: 0 <= i < |cols| ==> cols[i].name != names[k]
    ensures r.Ok? <==> forall k :: 0 <= k < |names| ==> exists i :: 0 <= i < |cols| && cols[i].name == names[k]
    ensures r.Err? ==> exists k :: 0 <= k < |names| && r.error == ColumnNotFound(names[k]) &&
                         forall j :: 0 <= j < k ==> exists i :: 0 <= i < |cols| && cols[i].name == names[j]
  {
    if names == [] then Ok([])
    else
      match FindColumn(cols, names[0])
      case None => Err(ColumnNotFound(names[0]))
      case Some(i) =>
        match SelectColumns(cols, names[1..])
        case Err(e) => Err(e)
        case Ok(rest) => Ok([cols[i]] + rest)
  }

  /** Whether row `r` of column `c` holds a value. */
  predicate Present(c: Column, r: nat)
  {
    match c
    case NumCol(_, v) => r < |v| && v[r].Some?
    case TextCol(_, v) => r < |v| && v[r].Some?
  }

  predicate RowComplete(cols: seq<Column>, r: nat)
  {
    forall k :: 0 <= k < |cols| ==> Present(cols[k], r)
  }

  /** `.dropna()` on the selected columns: the rows below `n` with a value in every selected column, in order. */
  function CompleteRows(cols: seq<Column>, n: nat): (rows: seq<nat>)
    ensures forall r: nat :: r in rows <==> r < n && RowComplete(cols, r)
    ensures forall i, j :: 0 <= i < j < |rows| ==> rows[i] < rows[j]
    ensures |rows| <= n
    ensures forall i :: 0 <= i < |rows| ==> rows[i] < n && RowComplete(cols, rows[i])
  {
    if n == 0 then []
    else
      var rest := CompleteRows(cols, n - 1);
      assert forall i :: 0 <= i < |rest| ==> rest[i] in rest;
      if RowComplete(cols, n - 1) then rest + [n - 1] else rest
  }

  predicate AllNumeric(cols: seq<Column>)
  {
    forall k :: 0 <= k < |cols| ==> IsNumeric(cols[k])
  }

  /** One complete row of numeric columns, as the feature vector handed to the scaler. */
  function RowValues(cols: seq<Column>, r: nat): (x: seq<real>)
    requires AllNumeric(cols) && RowComplete(cols, r)
    ensures |x| == |cols| && forall k :: 0 <= k < |cols| ==> Some(x[k]) == cols[k].nums[r]
  {
    seq(|cols|, k requires 0 <= k < |cols| => cols[k].nums[r].value)
  }

  /** The complete rows, as the matrix `X`. */
  function Matrix(cols: seq<Column>, rows: seq<nat>): (x: seq<seq<real>>)
    requires AllNumeric(cols)
    requires forall i :: 0 <= i < |rows| ==> RowComplete(cols, rows[i])
    ensures |x| == |rows| && forall i :: 0 <= i < |x| ==> x[i] == RowValues(cols, rows[i])
  {
    seq(|rows|, i requires 0 <= i < |rows| => RowValues(cols, rows[i]))
  }

  function FirstText(cols: seq<Column>): (r: Option<string>)
    ensures r.None? <==> AllNumeric(cols)
    ensures r.Some? ==> exists k :: 0 <= k < |cols| && !IsNumeric(cols[k]) && cols[k].name == r.value
  {
    if cols == [] then None
    else if !IsNumeric(cols[0]) then Some(cols[0].name)
    else
      var r := FirstText(cols[1..]);
      assert forall k :: 1 <= k < |cols| ==> cols[k] == cols[1..][k - 1];
      r
  }

  /** The columns `kmeans_clusters` works on: all numeric columns unless names are given. */
  function Selected(t: Table, names: Option<seq<string>>): Result<seq<Column>, EdaError>
  {
    if names.None? then Ok(NumericColumns(t.columns)) else SelectColumns(t.columns, names.value)
  }

  /** `kmeans_clusters(df, n_clusters, numeric_cols)`, with the fitted labelling passed in as `fit`
      (scaling and the clustering itself are not modelled). An empty selection, or one with no
      complete row, is rejected by the scaler; a text column with values cannot be scaled.
      The effective k is `min(n_clusters, rows)`; at most one cluster gives the message with the
      number of complete rows; otherwise at most 50 labels are kept, each below k when the
      clustering labels with clusters below k. */
  function KMeansClusters(t: Table, nClusters: int, names: Option<seq<string>>,
                          fit: (seq<seq<real>>, nat) -> seq<nat>): (r: Result<Clustering, EdaError>)
    ensures Selected(t, names).Err? ==> r == Err(Selected(t, names).error)
    ensures r.Ok? ==> Selected(t, names).Ok? && |CompleteRows(Selected(t, names).value, t.rows)| > 0
    ensures r.Ok? ==>
              var n := |CompleteRows(Selected(t, names).value, t.rows)|;
              && (r.value.NotEnoughRows? ==> r.value.samples == n && (nClusters <= 1 || n == 1))
              && (r.value.Clustered? ==>
                    r.value.k == (if nClusters < n then nClusters else n) && 2 <= r.value.k <= n
                    && |r.value.labelsSample| <= 50)
    ensures (forall x, k: nat, l :: l in fit(x, k) ==> l < k) && r.Ok? && r.value.Clustered? ==>
              forall l :: l in r.value.labelsSample ==> l < r.value.k
    ensures Selected(t, names).Ok? ==>
              var cols := Selected(t, names).value;
              var rows := CompleteRows(cols, t.rows);
              && (|cols| == 0 || |rows| == 0 ==> r == Err(EmptyInput))
              && (|cols| > 0 && |rows| > 0 && !AllNumeric(cols) ==> r == Err(NotNumeric(FirstText(cols).value)))
              && (|cols| > 0 && |rows| > 0 && AllNumeric(cols) ==>
                    var k := if nClusters < |rows| then nClusters else |rows|;
                    && (k <= 1 ==> r == Ok(NotEnoughRows(|rows|)))
                    && (k >= 2 ==> r == Ok(Clustered(k, Head(fit(Matrix(cols, rows), k), 50)))))
  {
    match Selected(t, names)
    case Err(e) => Err(e)
    case Ok(cols) =>
      var rows := CompleteRows(cols, t.rows);
      if |cols| == 0 || |rows| == 0 then Err(EmptyInput)
      else
        match FirstText(cols)
        case Some(name) => Err(NotNumeric(name))
        case None =>
          var x := Matrix(cols, rows);
          var k := if nClusters < |x| then nClusters else |x|;
          if k <= 1 then Ok(NotEnoughRows(|x|))
          else Ok(Clustered(k, Head(fit(x, k), 50)))
  }
}

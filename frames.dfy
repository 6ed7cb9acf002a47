/**
 * A query result (a pandas DataFrame read from SQLite) as rows of cells over
 * named columns, each column carrying the kind of its dtype.
 */
module Frames {

  /**
   * One cell. Numbers are abstract: only their identity (for duplicate and
   * distinct-value checks) and their sign matter here. `Null` is SQL NULL,
   * which pandas reads as None or NaN.
   */
  datatype Cell = Null | Num(value: int) | Str(text: string) | Flag(b: bool)

  /** `dtype.kind` of a column: 'i', 'u', 'f', 'b', 'O' and 'M'. */
  datatype Kind = SignedInt | UnsignedInt | Float | Boolean | Object | DateTime

  datatype Column = Column(name: string, kind: Kind)

  datatype Table = Table(columns: seq<Column>, rows: seq<seq<Cell>>)

  /**
   * What a column of each kind can hold: numbers or NaN in the numeric
   * kinds, and never a negative number in an unsigned one; True, False or
   * None in a boolean one; anything in an object column.
   */
  predicate Fits(c: Cell, k: Kind) {
    match k
    case SignedInt => c.Num? || c.Null?
    case Float => c.Num? || c.Null?
    case UnsignedInt => (c.Num? && c.value >= 0) || c.Null?
    case Boolean => c.Flag? || c.Null?
    case Object => true
    case DateTime => c.Str? || c.Null?
  }

  /** Every row has one cell per column, and each cell fits its column's kind. */
  predicate WellFormed(t: Table) {
    forall r :: r in t.rows ==>
      |r| == |t.columns| && forall j :: 0 <= j < |r| ==> Fits(r[j], t.columns[j].kind)
  }

  /** A DataFrame. */
  type Frame = t: Table | WellFormed(t) witness Table([], [])

  /** `pd.DataFrame()`: no columns and no rows. */
  const EmptyFrame: Frame := Table([], [])

  /** `df.empty`: the frame has no rows or no columns. */
  predicate IsEmpty(df: Frame) {
    |df.rows| == 0 || |df.columns| == 0
  }

  predicate IsNegative(c: Cell) {
    c.Num? && c.value < 0
  }

  /** The cell of row `i` in column `j`. */
  function At(df: Frame, i: nat, j: nat): Cell
    requires i < |df.rows| && j < |df.columns|
  {
    assert df.rows[i] in df.rows;
    df.rows[i][j]
  }

  /** Column `j` holds a negative number in some row. */
  predicate ColumnHasNegative(df: Frame, j: nat)
    requires j < |df.columns|
  {
    exists i :: 0 <= i < |df.rows| && IsNegative(At(df, i, j))
  }

  /** `df[col].isna().all()` for column `j`. */
  predicate IsNullColumn(df: Frame, j: nat)
    requires j < |df.columns|
  {
    forall i :: 0 <= i < |df.rows| ==> At(df, i, j) == Null
  }

  /** `df[col].unique()` for column `j`, as a set (NaN counts once). */
  function DistinctValues(df: Frame, j: nat): set<Cell>
    requires j < |df.columns|
  {
    set i | 0 <= i < |df.rows| :: At(df, i, j)
  }

  /** The positions, in order, of the columns named `name`. */
  function ColumnsNamed(df: Frame, name: string, n: nat): (r: seq<nat>)
    requires n <= |df.columns|
    ensures forall k :: 0 <= k < |r| ==> r[k] < n && df.columns[r[k]].name == name
    decreases n
  {
    if n == 0 then []
    else if df.columns[n - 1].name == name then ColumnsNamed(df, name, n - 1) + [n - 1]
    else ColumnsNamed(df, name, n - 1)
  }

  /** Every column of that name is listed. */
  lemma {:induction false} ColumnsNamedComplete(df: Frame, name: string, n: nat, j: nat)
    requires j < n <= |df.columns| && df.columns[j].name == name
    ensures j in ColumnsNamed(df, name, n)
    decreases n
  {
    if j < n - 1 {
      ColumnsNamedComplete(df, name, n - 1, j);
    }
  }

  /** The positions strictly increase. */
  predicate Increasing(positions: seq<nat>) {
    forall a, b :: 0 <= a < b < |positions| ==> positions[a] < positions[b]
  }

  /** `ColumnsNamed` lists positions in increasing order, so without repeats. */
  lemma {:induction false} ColumnsNamedIncreasing(df: Frame, name: string, n: nat)
    requires n <= |df.columns|
    ensures Increasing(ColumnsNamed(df, name, n))
    decreases n
  {
    if n > 0 {
      ColumnsNamedIncreasing(df, name, n - 1);
      var p := ColumnsNamed(df, name, n - 1);
      var r := ColumnsNamed(df, name, n);
      if df.columns[n - 1].name == name {
        assert r == p + [n - 1];
        forall a, b | 0 <= a < b < |r|
          ensures r[a] < r[b]
        {
          assert r[a] == p[a];
          if b < |p| {
            assert r[b] == p[b];
          }
        }
      } else {
        assert r == p;
      }
    }
  }

  /** Several columns carry `name` exactly when two distinct positions do. */
  lemma SeveralColumnsNamed(df: Frame, name: string)
    ensures |ColumnsNamed(df, name, |df.columns|)| > 1 <==>
      exists j, k :: 0 <= j < k < |df.columns| && df.columns[j].name == name && df.columns[k].name == name
  {
    var n := |df.columns|;
    var r := ColumnsNamed(df, name, n);
    if |r| > 1 {
      ColumnsNamedIncreasing(df, name, n);
      assert r[0] < r[1];
    }
    if exists j, k :: 0 <= j < k < n && df.columns[j].name == name && df.columns[k].name == name {
      var j, k :| 0 <= j < k < n && df.columns[j].name == name && df.columns[k].name == name;
      ColumnsNamedComplete(df, name, n, j);
      ColumnsNamedComplete(df, name, n, k);
    }
  }
}

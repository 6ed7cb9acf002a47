/**
 * The Apple Store page (app.py): the query generated by the model is
 * cleaned and its table renamed, and a non-empty first result is checked
 * for negative numbers, which rewrites every `SUM(x)` to `SUM(ABS(x))`.
 */
module App {
  import opened Wrappers
  import opened Text
  import opened Frames
  import opened SqlText

  const NegativeFixFeedback := "Detected negative totals \U{2192} added ABS() around SUM() for correction."
  const NoNumericIssues := "No numeric issues detected."

  /** The first query `app.py` runs: the generated query with "table" renamed. */
  function FirstQuery(content: string): string {
    RenameTable(CleanReply(content))
  }

  /** `dtype.kind in "if"`: signed integers and floats, but not unsigned integers or booleans. */
  predicate IsSignedOrFloat(k: Kind) {
    k == SignedInt || k == Float
  }

  /** Column `j` is of signed-integer or float kind and holds a negative number. */
  predicate NegativeNumericColumn(df: Frame, j: nat)
    requires j < |df.columns|
  {
    IsSignedOrFloat(df.columns[j].kind) && ColumnHasNegative(df, j)
  }

  /** Some signed-integer or float column holds a negative number. */
  predicate HasSignedNegative(df: Frame) {
    exists j :: 0 <= j < |df.columns| && NegativeNumericColumn(df, j)
  }

  /** The name of column `j` is shared by another column. */
  predicate NameRepeated(df: Frame, j: nat)
    requires j < |df.columns|
  {
    |ColumnsNamed(df, df.columns[j].name, |df.columns|)| > 1
  }

  /** No two columns share a name: a name identifies its column. */
  predicate DistinctNames(df: Frame) {
    forall j, k :: 0 <= j < |df.columns| && 0 <= k < |df.columns| && df.columns[j].name == df.columns[k].name ==> j == k
  }

  /**
   * The `any(...)` over `df_feedback.columns` from column `j` on: true at the
   * first signed or float column holding a negative number. `df[col]` for a
   * repeated name is a DataFrame, whose missing `dtype` raises; the error
   * carries the name.
   */
  function ScanFrom(df: Frame, j: nat): Result<bool, string>
    requires j <= |df.columns|
    decreases |df.columns| - j
  {
    if j == |df.columns| then Ok(false)
    else if NameRepeated(df, j) then Err(df.columns[j].name)
    else if NegativeNumericColumn(df, j) then Ok(true)
    else ScanFrom(df, j + 1)
  }

  /**
   * `refine_sql_with_feedback`: the fixed feedback with every `SUM(x)`
   * wrapped in `ABS`, when a signed or float column holds a negative number;
   * otherwise the query as it was.
   */
  function RefineSqlWithFeedback(sql: string, df: Frame): Result<(string, string), string> {
    match ScanFrom(df, 0)
    case Err(name) => Err(name)
    case Ok(hasNegative) =>
      if hasNegative then Ok((NegativeFixFeedback, SumAbs(sql))) else Ok((NoNumericIssues, sql))
  }

  /** The scan passes columns `j` up to `k`: none has a repeated name or is a negative number column. */
  predicate PassesColumns(df: Frame, j: nat, k: nat)
    requires j <= k <= |df.columns|
  {
    forall m :: j <= m < k ==> !NameRepeated(df, m) && !NegativeNumericColumn(df, m)
  }

  /**
   * The scan from column `j` on stops at the first column that has a
   * repeated name (raising with that name) or is a negative number column
   * (answering true), having passed every column before it; it answers
   * false only after passing every column.
   */
  lemma {:induction false} ScanFromCharacterised(df: Frame, j: nat)
    requires j <= |df.columns|
    ensures ScanFrom(df, j).Err? ==>
      exists k :: j <= k < |df.columns| && PassesColumns(df, j, k) && NameRepeated(df, k)
        && df.columns[k].name == ScanFrom(df, j).error
    ensures ScanFrom(df, j) == Ok(true) ==>
      exists k :: j <= k < |df.columns| && PassesColumns(df, j, k) && !NameRepeated(df, k)
        && NegativeNumericColumn(df, k)
    ensures ScanFrom(df, j) == Ok(false) ==> PassesColumns(df, j, |df.columns|)
    decreases |df.columns| - j
  {
    if j < |df.columns| {
      if NameRepeated(df, j) || NegativeNumericColumn(df, j) {
        assert PassesColumns(df, j, j);
      } else {
        ScanFromCharacterised(df, j + 1);
        if ScanFrom(df, j + 1).Err? {
          var k :| j + 1 <= k < |df.columns| && PassesColumns(df, j + 1, k) && NameRepeated(df, k)
            && df.columns[k].name == ScanFrom(df, j + 1).error;
          assert PassesColumns(df, j, k);
        } else if ScanFrom(df, j + 1) == Ok(true) {
          var k :| j + 1 <= k < |df.columns| && PassesColumns(df, j + 1, k) && !NameRepeated(df, k)
            && NegativeNumericColumn(df, k);
          assert PassesColumns(df, j, k);
        }
      }
    }
  }

  /**
   * With no repeated name among the columns from `j` on, the scan answers
   * whether one of them is a negative number column.
   */
  lemma {:induction false} ScanFromWithoutRepeats(df: Frame, j: nat)
    requires j <= |df.columns|
    requires forall k :: j <= k < |df.columns| ==> !NameRepeated(df, k)
    ensures ScanFrom(df, j) == Ok(exists k :: j <= k < |df.columns| && NegativeNumericColumn(df, k))
    decreases |df.columns| - j
  {
    if j < |df.columns| && !NegativeNumericColumn(df, j) {
      ScanFromWithoutRepeats(df, j + 1);
      if exists k :: j <= k < |df.columns| && NegativeNumericColumn(df, k) {
        var k :| j <= k < |df.columns| && NegativeNumericColumn(df, k);
        assert k != j;
      }
    }
  }

  /** With distinct column names, the only column named like column `j` is `j` itself. */
  lemma {:induction false} ColumnsNamedDistinct(df: Frame, j: nat, n: nat)
    requires j < |df.columns| && n <= |df.columns|
    requires forall k :: 0 <= k < |df.columns| && df.columns[k].name == df.columns[j].name ==> k == j
    ensures ColumnsNamed(df, df.columns[j].name, n) == if j < n then [j] else []
    decreases n
  {
    if n > 0 {
      ColumnsNamedDistinct(df, j, n - 1);
      var name := df.columns[j].name;
      if j == n - 1 {
        assert ColumnsNamed(df, name, n) == [] + [j];
      }
    }
  }

  /** With distinct column names no column's name is repeated. */
  lemma DistinctNamesNotRepeated(df: Frame, j: nat)
    requires DistinctNames(df) && j < |df.columns|
    ensures !NameRepeated(df, j)
  {
    ColumnsNamedDistinct(df, j, |df.columns|);
  }

  /**
   * With distinct column names `refine_sql_with_feedback` never raises; it
   * rewrites with the fixed feedback exactly when a signed or float column
   * holds a negative number, and otherwise returns the query unchanged.
   */
  lemma RefineCharacterised(sql: string, df: Frame)
    requires DistinctNames(df)
    ensures var r := RefineSqlWithFeedback(sql, df);
      && r.Ok?
      && (HasSignedNegative(df) ==> r.value == (NegativeFixFeedback, SumAbs(sql)))
      && (!HasSignedNegative(df) ==> r.value == (NoNumericIssues, sql))
  {
    forall k | 0 <= k < |df.columns|
      ensures !NameRepeated(df, k)
    {
      DistinctNamesNotRepeated(df, k);
    }
    ScanFromWithoutRepeats(df, 0);
  }

  /**
   * When the fix applies to a query without a `SUM(x)` call, the feedback
   * still announces it but the query is unchanged; with such a call the
   * query changes.
   */
  lemma RefineWithoutSumCall(sql: string, df: Frame)
    requires DistinctNames(df) && HasSignedNegative(df)
    ensures var r := RefineSqlWithFeedback(sql, df);
      && r.Ok? && r.value.0 == NegativeFixFeedback
      && (r.value.1 == sql <==> !HasSumCall(sql))
  {
    RefineCharacterised(sql, df);
    SumAbsChangesIff(sql);
  }

  /**
   * A negative number in an object column, or a column of any kind other
   * than signed integer or float, does not trigger the fix.
   */
  lemma RefineIgnoresOtherKinds(sql: string, df: Frame)
    requires DistinctNames(df)
    requires forall j :: 0 <= j < |df.columns| && ColumnHasNegative(df, j) ==> !IsSignedOrFloat(df.columns[j].kind)
    ensures RefineSqlWithFeedback(sql, df) == Ok((NoNumericIssues, sql))
  {
    RefineCharacterised(sql, df);
  }

  /**
   * The page's negative test and the engine's `select_dtypes("number")` test
   * agree: an unsigned column cannot hold a negative number and booleans are
   * in neither.
   */
  lemma SignedNegativeIsNumberNegative(df: Frame)
    ensures HasSignedNegative(df) <==>
      exists j :: 0 <= j < |df.columns| && (df.columns[j].kind in {SignedInt, UnsignedInt, Float})
                  && ColumnHasNegative(df, j)
  {
    if exists j :: 0 <= j < |df.columns| && (df.columns[j].kind in {SignedInt, UnsignedInt, Float})
                   && ColumnHasNegative(df, j) {
      var j :| 0 <= j < |df.columns| && (df.columns[j].kind in {SignedInt, UnsignedInt, Float})
               && ColumnHasNegative(df, j);
      var i :| 0 <= i < |df.rows| && IsNegative(At(df, i, j));
      assert df.rows[i] in df.rows;
      assert Fits(df.rows[i][j], df.columns[j].kind);
      assert NegativeNumericColumn(df, j);
    }
  }

  /**
   * What the page does after running the first query: a failed query shows
   * an empty frame, and only a non-empty result is passed to
   * `refine_sql_with_feedback`.
   */
  function Reflection(sql: string, firstResult: Option<Frame>): Option<Result<(string, string), string>> {
    var df := match firstResult case Some(f) => f case None => EmptyFrame;
    if IsEmpty(df) then None else Some(RefineSqlWithFeedback(sql, df))
  }

  /** The refinement runs exactly when the first query succeeded with a non-empty result. */
  lemma ReflectionGate(sql: string, firstResult: Option<Frame>)
    ensures Reflection(sql, firstResult).Some? <==> firstResult.Some? && !IsEmpty(firstResult.value)
    ensures Reflection(sql, firstResult).Some? ==>
      Reflection(sql, firstResult).value == RefineSqlWithFeedback(sql, firstResult.value)
  {
  }
}

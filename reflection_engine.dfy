/**
 * `ReflectionEngine` (reflection_engine.py): the data-level anomaly checks on
 * a query result, the static check for question words that name no schema
 * column, the classification of the model's semantic verdict, and `reflect`,
 * which combines them into the verdict the pages display.
 *
 * The engine's two fields, the service client and the model name, are set
 * once by the constructor and never changed; every call to the completion
 * service is a `Reply` parameter here, and `json.loads` is the `parse`
 * parameter.
 */
module ReflectionEngine {
  import opened Wrappers
  import opened Text
  import opened Frames
  import opened Service
  import opened SqlText

  // ---------- Data anomaly detection (reflection_engine.py:18-43) ----------

  /** The issues `detect_output_anomalies` can report; `Message` gives each one's text. */
  datatype Issue =
    | EmptyResult
    | NegativeValues
    | DuplicateRows
    | NullColumns(names: seq<string>)
    | RegionsMissing
    | NoAnomalies

  const NullColumnsPrefix := "Empty/null-only column(s): "
  /** The word `reflect` looks for in the issue texts. */
  const NegativeWord := "Negative"

  /** The text of an issue, as the source writes it; the all-null issue prints the Python list of names. */
  function Message(issue: Issue): string {
    match issue
    case EmptyResult => "Empty dataframe \U{2014} possible WHERE or JOIN condition error."
    case NegativeValues => NegativeWord + " numeric values detected (possible refunds or sign errors)."
    case DuplicateRows => "Duplicate rows found in result set."
    case NullColumns(names) => NullColumnsPrefix + PyListRepr(names)
    case RegionsMissing => "Some regions missing \U{2014} possible filtering issue or incomplete data coverage."
    case NoAnomalies => "\U{2705} No data-level anomalies detected."
  }

  const RegionColumn := "region"
  /** Fewer distinct regions than this means some are missing. */
  const MinRegions := 4

  /** Why `reflect` raises instead of returning a verdict. */
  datatype Cause =
    | RegionNotUnique   // several columns are named "region": `df["region"]` has no `unique`
    | ReplyNotObject    // the parsed verdict is not a dict: it has no `get`
    | RefinedNotText    // its "refined_sql" is not a str: it has no `strip`
    | FeedbackNotText   // its "feedback" is not a str: it has no `lower`

  /** The kinds `select_dtypes("number")` keeps: integers and floats, not booleans. */
  predicate IsNumberKind(k: Kind) {
    k == SignedInt || k == UnsignedInt || k == Float
  }

  /** `(df.select_dtypes("number") < 0).any().any()`. */
  predicate HasNegative(df: Frame) {
    exists j :: 0 <= j < |df.columns| && IsNumberKind(df.columns[j].kind) && ColumnHasNegative(df, j)
  }

  /** `df.duplicated().sum() > 0`: some row repeats an earlier one (NaN equals NaN). */
  predicate HasDuplicateRow(df: Frame) {
    exists i, k :: 0 <= i < k < |df.rows| && df.rows[i] == df.rows[k]
  }

  /** `df.columns[df.isna().all()].tolist()` over the first `n` columns: the names of the all-null columns, in order. */
  function NullColumnNames(df: Frame, n: nat): (r: seq<string>)
    requires n <= |df.columns|
    ensures forall name :: name in r ==>
      exists j :: 0 <= j < n && IsNullColumn(df, j) && df.columns[j].name == name
    ensures forall j :: 0 <= j < n && IsNullColumn(df, j) ==> df.columns[j].name in r
    ensures r == [] <==> forall j :: 0 <= j < n ==> !IsNullColumn(df, j)
    decreases n
  {
    if n == 0 then []
    else NullColumnNames(df, n - 1) + (if IsNullColumn(df, n - 1) then [df.columns[n - 1].name] else [])
  }

  /** Some column holds only NULL. */
  predicate HasNullColumn(df: Frame) {
    exists j :: 0 <= j < |df.columns| && IsNullColumn(df, j)
  }

  /** The positions of the columns named "region". */
  function RegionColumns(df: Frame): seq<nat> {
    ColumnsNamed(df, RegionColumn, |df.columns|)
  }

  /** The one "region" column has fewer than four distinct values. */
  predicate RegionSparse(df: Frame) {
    var rc := RegionColumns(df);
    |rc| == 1 && |DistinctValues(df, rc[0])| < MinRegions
  }

  /** `issues`, followed by `issue` when `cond` holds. */
  function AppendIf(issues: seq<Issue>, cond: bool, issue: Issue): seq<Issue> {
    if cond then issues + [issue] else issues
  }

  /** The issues of the four checks on a non-empty result, in the order they run. */
  function Found(df: Frame): seq<Issue> {
    var nulls := NullColumnNames(df, |df.columns|);
    AppendIf(AppendIf(AppendIf(AppendIf([], HasNegative(df), NegativeValues),
      HasDuplicateRow(df), DuplicateRows), nulls != [], NullColumns(nulls)), RegionSparse(df), RegionsMissing)
  }

  /**
   * What `detect_output_anomalies` returns, or the exception it raises:
   * the empty-result issue alone, or the issues that apply in the order
   * negative, duplicate, all-null, region, or else the "no anomalies" line.
   */
  function Anomalies(df: Frame): Result<seq<Issue>, Cause> {
    if IsEmpty(df) then Ok([EmptyResult])
    else if |RegionColumns(df)| > 1 then Err(RegionNotUnique)
    else
      var found := Found(df);
      Ok(if found == [] then [NoAnomalies] else found)
  }

  /** `detect_output_anomalies`: appends each issue that applies, in turn. */
  method DetectOutputAnomalies(df: Frame) returns (r: Result<seq<Issue>, Cause>)
    ensures r == Anomalies(df)
  {
    if IsEmpty(df) {
      return Ok([EmptyResult]);
    }
    var issues: seq<Issue> := [];
    if HasNegative(df) {
      issues := issues + [NegativeValues];
    }
    assert issues == AppendIf([], HasNegative(df), NegativeValues);
    ghost var checked := issues;
    if HasDuplicateRow(df) {
      issues := issues + [DuplicateRows];
    }
    assert issues == AppendIf(checked, HasDuplicateRow(df), DuplicateRows);
    checked := issues;
    var nulls := NullColumnNames(df, |df.columns|);
    if nulls != [] {
      issues := issues + [NullColumns(nulls)];
    }
    assert issues == AppendIf(checked, nulls != [], NullColumns(nulls));
    checked := issues;
    var regions := RegionColumns(df);
    if regions != [] {
      if |regions| > 1 {
        return Err(RegionNotUnique);
      }
      if |DistinctValues(df, regions[0])| < MinRegions {
        issues := issues + [RegionsMissing];
      }
    }
    assert issues == AppendIf(checked, RegionSparse(df), RegionsMissing);
    assert issues == Found(df);
    if issues == [] {
      issues := issues + [NoAnomalies];
      assert issues == [NoAnomalies];
    }
    return Ok(issues);
  }

  /** Position of an issue in the order the checks run. */
  function Rank(issue: Issue): nat {
    match issue
    case NegativeValues => 0
    case DuplicateRows => 1
    case NullColumns(_) => 2
    case RegionsMissing => 3
    case _ => 4
  }

  lemma AppendIfMembers(issues: seq<Issue>, cond: bool, issue: Issue, x: Issue)
    ensures x in AppendIf(issues, cond, issue) <==> x in issues || (cond && x == issue)
  {
  }

  /** The issues the four checks report, by membership. */
  lemma FoundMembers(df: Frame, x: Issue)
    ensures var nulls := NullColumnNames(df, |df.columns|);
      x in Found(df) <==>
        (x == NegativeValues && HasNegative(df)) || (x == DuplicateRows && HasDuplicateRow(df))
        || (x == NullColumns(nulls) && nulls != []) || (x == RegionsMissing && RegionSparse(df))
  {
    var nulls := NullColumnNames(df, |df.columns|);
    var f1 := AppendIf([], HasNegative(df), NegativeValues);
    var f2 := AppendIf(f1, HasDuplicateRow(df), DuplicateRows);
    var f3 := AppendIf(f2, nulls != [], NullColumns(nulls));
    assert Found(df) == AppendIf(f3, RegionSparse(df), RegionsMissing);
    AppendIfMembers([], HasNegative(df), NegativeValues, x);
    AppendIfMembers(f1, HasDuplicateRow(df), DuplicateRows, x);
    AppendIfMembers(f2, nulls != [], NullColumns(nulls), x);
    AppendIfMembers(f3, RegionSparse(df), RegionsMissing, x);
  }

  /** A non-empty result reports the negative-value issue exactly when a numeric column holds a negative number. */
  lemma NegativeIssueIff(df: Frame)
    requires !IsEmpty(df) && Anomalies(df).Ok?
    ensures NegativeValues in Anomalies(df).value <==> HasNegative(df)
  {
    FoundMembers(df, NegativeValues);
  }

  /**
   * On a non-empty result each check's issue is present exactly when its
   * condition holds, the "no anomalies" line exactly when none holds, and
   * the list is never empty.
   */
  lemma AnomaliesCharacterised(df: Frame)
    requires !IsEmpty(df) && Anomalies(df).Ok?
    ensures var issues := Anomalies(df).value;
      && issues != []
      && EmptyResult !in issues
      && (NegativeValues in issues <==> HasNegative(df))
      && (DuplicateRows in issues <==> HasDuplicateRow(df))
      && (NullColumns(NullColumnNames(df, |df.columns|)) in issues <==> HasNullColumn(df))
      && (forall names :: NullColumns(names) in issues ==> names == NullColumnNames(df, |df.columns|))
      && (RegionsMissing in issues <==> RegionSparse(df))
      && (issues == [NoAnomalies] <==>
            !HasNegative(df) && !HasDuplicateRow(df) && !HasNullColumn(df) && !RegionSparse(df))
  {
    var nulls := NullColumnNames(df, |df.columns|);
    FoundMembers(df, NegativeValues);
    FoundMembers(df, DuplicateRows);
    FoundMembers(df, NullColumns(nulls));
    FoundMembers(df, RegionsMissing);
    FoundMembers(df, EmptyResult);
    forall names | NullColumns(names) in Anomalies(df).value
      ensures names == nulls
    {
      FoundMembers(df, NullColumns(names));
    }
    if HasNullColumn(df) {
      assert nulls != [];
    }
  }

  /** Each issue ranks strictly below the next. */
  predicate Ordered(issues: seq<Issue>) {
    forall i, k :: 0 <= i < k < |issues| ==> Rank(issues[i]) < Rank(issues[k])
  }

  /** Every issue ranks below `bound`. */
  predicate RankedBelow(issues: seq<Issue>, bound: nat) {
    forall i :: 0 <= i < |issues| ==> Rank(issues[i]) < bound
  }

  /** Appending an issue of a higher rank keeps a list strictly ordered by rank. */
  lemma AppendIfRanked(issues: seq<Issue>, cond: bool, issue: Issue)
    requires Ordered(issues) && RankedBelow(issues, Rank(issue))
    ensures Ordered(AppendIf(issues, cond, issue)) && RankedBelow(AppendIf(issues, cond, issue), Rank(issue) + 1)
  {
  }

  /** Whichever of the four checks apply, their issues come in the order the checks run. */
  lemma ChecksOrdered(c1: bool, c2: bool, c3: bool, c4: bool, nulls: seq<string>)
    ensures Ordered(AppendIf(AppendIf(AppendIf(AppendIf([], c1, NegativeValues),
      c2, DuplicateRows), c3, NullColumns(nulls)), c4, RegionsMissing))
  {
    var f1 := AppendIf([], c1, NegativeValues);
    var f2 := AppendIf(f1, c2, DuplicateRows);
    var f3 := AppendIf(f2, c3, NullColumns(nulls));
    AppendIfRanked([], c1, NegativeValues);
    AppendIfRanked(f1, c2, DuplicateRows);
    AppendIfRanked(f2, c3, NullColumns(nulls));
    AppendIfRanked(f3, c4, RegionsMissing);
  }

  /** The four checks report in the order they run. */
  lemma FoundOrdered(df: Frame)
    ensures Ordered(Found(df))
  {
    var nulls := NullColumnNames(df, |df.columns|);
    ChecksOrdered(HasNegative(df), HasDuplicateRow(df), nulls != [], RegionSparse(df), nulls);
  }

  /** The issues come in the order the checks run, so each at most once. */
  lemma AnomaliesOrdered(df: Frame)
    requires Anomalies(df).Ok?
    ensures Ordered(Anomalies(df).value)
  {
    if !IsEmpty(df) {
      FoundOrdered(df);
    }
  }

  /** With at most one "region" column, it is sparse exactly when some column of that name has fewer than four values. */
  lemma RegionSparseIff(df: Frame)
    requires |RegionColumns(df)| <= 1
    ensures RegionSparse(df) <==>
      exists j :: 0 <= j < |df.columns| && df.columns[j].name == RegionColumn
                  && |DistinctValues(df, j)| < MinRegions
  {
    var rc := RegionColumns(df);
    if exists j :: 0 <= j < |df.columns| && df.columns[j].name == RegionColumn
                   && |DistinctValues(df, j)| < MinRegions {
      var j :| 0 <= j < |df.columns| && df.columns[j].name == RegionColumn
               && |DistinctValues(df, j)| < MinRegions;
      ColumnsNamedComplete(df, RegionColumn, |df.columns|, j);
      assert rc[0] == j;
    }
  }

  /** A "region" column with fewer than four distinct values is reported, and only then. */
  lemma RegionIssueIff(df: Frame)
    requires !IsEmpty(df) && Anomalies(df).Ok?
    ensures RegionsMissing in Anomalies(df).value <==>
      exists j :: 0 <= j < |df.columns| && df.columns[j].name == RegionColumn
                  && |DistinctValues(df, j)| < MinRegions
  {
    FoundMembers(df, RegionsMissing);
    RegionSparseIff(df);
  }

  /** `detect_output_anomalies` raises exactly when a non-empty result has several "region" columns. */
  lemma AnomaliesRaiseIff(df: Frame)
    ensures Anomalies(df).Err? <==>
      && !IsEmpty(df)
      && exists j, k :: 0 <= j < k < |df.columns|
           && df.columns[j].name == RegionColumn && df.columns[k].name == RegionColumn
  {
    SeveralColumnsNamed(df, RegionColumn);
  }

  // ---------- Finding: the trigger of the negative-value fix ----------

  /**
   * The trigger as written at reflection_engine.py:149: the text of some
   * issue contains the word "Negative". The all-null issue embeds column
   * names, so it can contain that word too.
   */
  predicate MentionsNegative(issues: seq<Issue>) {
    exists i :: 0 <= i < |issues| && Contains(Message(issues[i]), NegativeWord)
  }

  /** A one-row result whose only column, named "Negative", is NULL. */
  const NullNegativeColumn: Frame := Table([Column(NegativeWord, Object)], [[Null]])

  lemma NullNegativeColumnChecks()
    ensures !HasNegative(NullNegativeColumn) && !HasDuplicateRow(NullNegativeColumn)
    ensures NullColumnNames(NullNegativeColumn, 1) == [NegativeWord]
    ensures RegionColumns(NullNegativeColumn) == []
  {
    var df := NullNegativeColumn;
    assert IsNullColumn(df, 0) by {
      assert At(df, 0, 0) == Null;
    }
    assert NegativeWord != RegionColumn by {
      assert NegativeWord[0] != RegionColumn[0];
    }
  }

  lemma NullColumnsMentionNegative()
    ensures Contains(Message(NullColumns([NegativeWord])), NegativeWord)
  {
    assert forall i :: 0 <= i < |NegativeWord| ==> IsPlain(NegativeWord[i]);
    ReprPlain(NegativeWord);
    assert Message(NullColumns([NegativeWord])) == (NullColumnsPrefix + "['") + NegativeWord + "']";
    ContainsBetween(NullColumnsPrefix + "['", NegativeWord, "']");
  }

  /**
   * The written trigger fires on a result with no negative number at all:
   * the all-null issue names the column "Negative".
   */
  lemma NegativeTriggerCounterexample()
    ensures Anomalies(NullNegativeColumn) == Ok([NullColumns([NegativeWord])])
    ensures MentionsNegative(Anomalies(NullNegativeColumn).value)
    ensures NegativeValues !in Anomalies(NullNegativeColumn).value
    ensures !HasNegative(NullNegativeColumn)
  {
    var df := NullNegativeColumn;
    NullNegativeColumnChecks();
    NullColumnsMentionNegative();
    assert !IsEmpty(df);
    assert !RegionSparse(df);
    var issues := [NullColumns([NegativeWord])];
    assert Found(df) == AppendIf([], true, NullColumns([NegativeWord]));
    assert Found(df) == issues;
    assert Contains(Message(issues[0]), NegativeWord);
  }

  /**
   * The corrected trigger: the negative-value issue itself, which a non-empty
   * result reports exactly when a numeric column holds a negative number.
   * The written trigger fires whenever the corrected one does.
   */
  lemma NegativeTriggerCorrected(df: Frame)
    requires !IsEmpty(df) && Anomalies(df).Ok?
    ensures NegativeValues in Anomalies(df).value <==> HasNegative(df)
    ensures NegativeValues in Anomalies(df).value ==> MentionsNegative(Anomalies(df).value)
  {
    NegativeIssueIff(df);
    var issues := Anomalies(df).value;
    if NegativeValues in issues {
      var i :| 0 <= i < |issues| && issues[i] == NegativeValues;
      NegativeMessageMentionsNegative();
    }
  }

  lemma NegativeMessageMentionsNegative()
    ensures Contains(Message(NegativeValues), NegativeWord)
  {
    var text := Message(NegativeValues);
    assert text[..|NegativeWord|] == NegativeWord;
    ContainsAt(text, NegativeWord, 0);
  }

  // ---------- Schema presence pre-check (reflection_engine.py:46-58) ----------

  /** The field names the static check looks for. */
  const Vocabulary := ["color", "rating", "brand", "model", "size", "version"]

  /** The line boundaries of `str.splitlines()`. */
  predicate IsLineBreak(c: char) {
    var n := c as int;
    (10 <= n <= 13) || (28 <= n <= 30) || n == 0x85 || n == 0x2028 || n == 0x2029
  }

  /** Length of the text before the first line boundary. */
  function LineLength(s: string): (n: nat)
    ensures n <= |s|
    ensures forall i :: 0 <= i < n ==> !IsLineBreak(s[i])
    ensures n < |s| ==> IsLineBreak(s[n])
  {
    if s == [] || IsLineBreak(s[0]) then 0 else 1 + LineLength(s[1..])
  }

  /** `s.splitlines()`: "\r\n" ends one line, and a final boundary opens no empty line. */
  function Lines(s: string): (r: seq<string>)
    ensures forall k, i :: 0 <= k < |r| && 0 <= i < |r[k]| ==> !IsLineBreak(r[k][i])
    decreases |s|
  {
    if s == [] then []
    else
      var n := LineLength(s);
      if n == |s| then [s]
      else if s[n] == '\r' && n + 1 < |s| && s[n + 1] == '\n' then [s[..n]] + Lines(s[n + 2..])
      else [s[..n]] + Lines(s[n + 1..])
  }

  /** `s.split(" ")[0]`: the text before the first space. */
  function FirstField(s: string): (r: string)
    ensures |r| <= |s| && r == s[..|r|] && ' ' !in r
    ensures |r| < |s| ==> s[|r|] == ' '
  {
    if s == [] || s[0] == ' ' then [] else [s[0]] + FirstField(s[1..])
  }

  /** Whether a schema line contains `(` and names column `c`: its first word, stripped and lower-cased. */
  predicate DeclaresColumn(line: string, c: string) {
    '(' in line && c == Lower(Strip(FirstField(line)))
  }

  /** The column names of the schema lines that contain `(`. */
  function LineColumns(lines: seq<string>): seq<string> {
    if lines == [] then []
    else if '(' in lines[0] then [Lower(Strip(FirstField(lines[0])))] + LineColumns(lines[1..])
    else LineColumns(lines[1..])
  }

  /** A name is a schema column exactly when some line with `(` starts with it. */
  lemma {:induction false} LineColumnsIff(lines: seq<string>, c: string)
    ensures c in LineColumns(lines) <==> exists k :: 0 <= k < |lines| && DeclaresColumn(lines[k], c)
  {
    if lines != [] {
      LineColumnsIff(lines[1..], c);
      if c in LineColumns(lines) {
        LineColumnsSoundStep(lines, c);
      }
      if exists k :: 0 <= k < |lines| && DeclaresColumn(lines[k], c) {
        var k :| 0 <= k < |lines| && DeclaresColumn(lines[k], c);
        if k > 0 {
          assert lines[1..][k - 1] == lines[k];
        }
      }
    }
  }

  /** The step of `LineColumnsIff` from the tail to the whole list, left to right. */
  lemma LineColumnsSoundStep(lines: seq<string>, c: string)
    requires lines != [] && c in LineColumns(lines)
    requires c in LineColumns(lines[1..]) ==> exists k :: 0 <= k < |lines[1..]| && DeclaresColumn(lines[1..][k], c)
    ensures exists k :: 0 <= k < |lines| && DeclaresColumn(lines[k], c)
  {
    if c in LineColumns(lines[1..]) {
      var k :| 0 <= k < |lines[1..]| && DeclaresColumn(lines[1..][k], c);
      assert lines[k + 1] == lines[1..][k];
    } else {
      assert DeclaresColumn(lines[0], c);
    }
  }

  /** `schema_cols`: the first word, stripped and lower-cased, of each schema line with `(`. */
  function SchemaColumns(schema: string): seq<string> {
    LineColumns(Lines(schema))
  }

  /** The characters of the token class `[a-zA-Z_]`. */
  predicate IsTokenChar(c: char) {
    IsAsciiLetter(c) || c == '_'
  }

  /** Length of the token that starts `s`. */
  function LeadingRun(s: string): (n: nat)
    ensures n <= |s|
    ensures forall i :: 0 <= i < n ==> IsTokenChar(s[i])
    ensures n < |s| ==> !IsTokenChar(s[n])
  {
    if s == [] || !IsTokenChar(s[0]) then 0 else 1 + LeadingRun(s[1..])
  }

  /** `re.findall(r"[a-zA-Z_]+", s)`: the maximal runs of token characters, in order. */
  function Tokens(s: string): (r: seq<string>)
    ensures forall k :: 0 <= k < |r| ==> r[k] != []
    ensures forall k, i :: 0 <= k < |r| && 0 <= i < |r[k]| ==> IsTokenChar(r[k][i])
    decreases |s|
  {
    if s == [] then []
    else if !IsTokenChar(s[0]) then Tokens(s[1..])
    else
      var n := LeadingRun(s);
      [s[..n]] + Tokens(s[n..])
  }

  /** A non-empty run of token characters is one token. */
  lemma TokensOfWord(w: string)
    requires w != [] && forall i :: 0 <= i < |w| ==> IsTokenChar(w[i])
    ensures Tokens(w) == [w]
  {
    LeadingRunOfWord(w, []);
    assert w + [] == w;
  }

  /** A run of token characters followed by anything else is a whole token. */
  lemma {:induction false} LeadingRunOfWord(w: string, t: string)
    requires forall i :: 0 <= i < |w| ==> IsTokenChar(w[i])
    requires t == [] || !IsTokenChar(t[0])
    ensures LeadingRun(w + t) == |w|
  {
    if w != [] {
      assert (w + t)[1..] == w[1..] + t;
      LeadingRunOfWord(w[1..], t);
    }
  }

  /** A character outside the token class separates the tokens before it from those after it. */
  lemma {:induction false} TokensSplit(a: string, c: char, b: string)
    requires !IsTokenChar(c)
    ensures Tokens(a + [c] + b) == Tokens(a) + Tokens(b)
    decreases |a|
  {
    if a == [] {
      assert a + [c] + b == [c] + b && ([c] + b)[1..] == b;
    } else if !IsTokenChar(a[0]) {
      TokensSplit(a[1..], c, b);
      TokensSplitAtSeparator(a, c, b);
    } else if LeadingRun(a) == |a| {
      TokensSplitAfterWord(a, c, b);
    } else {
      TokensSplit(a[LeadingRun(a)..], c, b);
      TokensSplitAtWord(a, c, b);
    }
  }

  /** `TokensSplit` when `a` starts with a separator: it is dropped on both sides. */
  lemma TokensSplitAtSeparator(a: string, c: char, b: string)
    requires a != [] && !IsTokenChar(a[0])
    requires Tokens(a[1..] + [c] + b) == Tokens(a[1..]) + Tokens(b)
    ensures Tokens(a + [c] + b) == Tokens(a) + Tokens(b)
  {
    assert (a + [c] + b)[1..] == a[1..] + [c] + b;
  }

  /** `TokensSplit` when `a` is one whole token. */
  lemma TokensSplitAfterWord(a: string, c: char, b: string)
    requires !IsTokenChar(c) && a != [] && LeadingRun(a) == |a|
    ensures Tokens(a + [c] + b) == Tokens(a) + Tokens(b)
  {
    var s := a + [c] + b;
    LeadingRunOfWord(a, [c] + b);
    assert s == a + ([c] + b);
    assert s[..|a|] == a && s[|a|..] == [c] + b;
    assert ([c] + b)[1..] == b;
    TokensOfWord(a);
  }

  /** `TokensSplit` when `a` starts with a token that ends before `a` does. */
  lemma TokensSplitAtWord(a: string, c: char, b: string)
    requires a != [] && IsTokenChar(a[0]) && LeadingRun(a) < |a|
    requires Tokens(a[LeadingRun(a)..] + [c] + b) == Tokens(a[LeadingRun(a)..]) + Tokens(b)
    ensures Tokens(a + [c] + b) == Tokens(a) + Tokens(b)
  {
    var n := LeadingRun(a);
    var s := a + [c] + b;
    LeadingRunOfWord(a[..n], a[n..] + [c] + b);
    assert s == a[..n] + (a[n..] + [c] + b);
    assert s[..n] == a[..n] && s[n..] == a[n..] + [c] + b;
    assert Tokens(s) == [a[..n]] + Tokens(a[n..] + [c] + b);
    assert [a[..n]] + (Tokens(a[n..]) + Tokens(b)) == [a[..n]] + Tokens(a[n..]) + Tokens(b);
  }

  /** A question word is reported: it names a listed field that is not a schema column. */
  predicate IsMissingTerm(word: string, cols: seq<string>) {
    word !in cols && |word| > 3 && word in Vocabulary
  }

  /** The reported words among `words`, in order and with repeats. */
  function MissingAmong(words: seq<string>, cols: seq<string>): seq<string> {
    if words == [] then []
    else
      var last := words[|words| - 1];
      MissingAmong(words[..|words| - 1], cols) + (if IsMissingTerm(last, cols) then [last] else [])
  }

  /** What `detect_missing_fields(question, schema)` returns. */
  function MissingFields(question: string, schema: string): seq<string> {
    MissingAmong(Tokens(Lower(question)), SchemaColumns(schema))
  }

  /** `detect_missing_fields`: one pass over the question's words, appending each reported one. */
  method DetectMissingFields(question: string, schema: string) returns (missing: seq<string>)
    ensures missing == MissingFields(question, schema)
  {
    var cols := SchemaColumns(schema);
    var words := Tokens(Lower(question));
    missing := [];
    for i := 0 to |words|
      invariant missing == MissingAmong(words[..i], cols)
    {
      var word := words[i];
      assert words[..i + 1][..i] == words[..i];
      if word !in cols && |word| > 3 {
        if word in Vocabulary {
          missing := missing + [word];
        }
      }
    }
    assert words[..|words|] == words;
  }

  /** Every reported word is a listed field, is no schema column, and occurs in the question. */
  lemma {:induction false} MissingAmongSound(words: seq<string>, cols: seq<string>)
    ensures forall w :: w in MissingAmong(words, cols) ==> w in Vocabulary && w !in cols && w in words
  {
    if words != [] {
      MissingAmongSound(words[..|words| - 1], cols);
    }
  }

  /** Every question word that is a listed field and no schema column is reported. */
  lemma {:induction false} MissingAmongComplete(words: seq<string>, cols: seq<string>)
    ensures forall w :: w in words && w in Vocabulary && w !in cols ==> w in MissingAmong(words, cols)
  {
    if words != [] {
      MissingAmongComplete(words[..|words| - 1], cols);
      forall w | w in words && w in Vocabulary && w !in cols
        ensures w in MissingAmong(words, cols)
      {
        if w != words[|words| - 1] {
          assert w in words[..|words| - 1];
        } else {
          assert |w| > 3;
        }
      }
    }
  }

  /** Reported words keep the question's order and its repeats. */
  lemma {:induction false} MissingAmongConcat(a: seq<string>, b: seq<string>, cols: seq<string>)
    ensures MissingAmong(a + b, cols) == MissingAmong(a, cols) + MissingAmong(b, cols)
    decreases |b|
  {
    if b == [] {
      assert a + b == a;
    } else {
      assert (a + b)[..|a + b| - 1] == a + b[..|b| - 1];
      MissingAmongConcat(a, b[..|b| - 1], cols);
    }
  }

  /** A separator in the question splits the reported words accordingly. */
  lemma MissingFieldsSplit(q1: string, c: char, q2: string, schema: string)
    requires !IsTokenChar(c)
    ensures MissingFields(q1 + [c] + q2, schema) == MissingFields(q1, schema) + MissingFields(q2, schema)
  {
    LowerConcat(q1 + [c], q2);
    LowerConcat(q1, [c]);
    assert Lower([c]) == [c];
    TokensSplit(Lower(q1), c, Lower(q2));
    MissingAmongConcat(Tokens(Lower(q1)), Tokens(Lower(q2)), SchemaColumns(schema));
  }

  // ---------- Semantic reflection (reflection_engine.py:61-115) ----------

  const NotPresentFeedback :=
    "The question seems to reference fields not present in the schema. Please rephrase or use available columns."
  const NonJsonPrefix := "Model returned non-JSON output: "
  const FailurePrefix := "Semantic reflection failed: "
  /** How much of a non-JSON answer the feedback quotes. */
  const PreviewLength := 120
  const NullSql := "NULL"

  /** The dict the fallbacks build. */
  function FallbackVerdict(feedback: string, refinedSql: string): Json {
    JObj(map["feedback" := JStr(feedback), "refined_sql" := JStr(refinedSql)])
  }

  /**
   * `semantic_reflection`: the parsed answer when the model's stripped reply
   * is JSON, the "not present" verdict with the "NULL" sentinel when a
   * non-JSON reply speaks of missing fields, and otherwise a verdict that
   * keeps the query. A failing call, or a parser error other than a decode
   * error, is caught and keeps the query too.
   */
  function SemanticReflection(sql: string, reply: Reply, parse: string -> Parse): Json {
    match reply
    case Failed(reason) => FallbackVerdict(FailurePrefix + reason, sql)
    case Completed(content) =>
      var raw := Strip(content);
      match parse(raw)
      case Parsed(value) => value
      case ParserRaised(reason) => FallbackVerdict(FailurePrefix + reason, sql)
      case NotJson =>
        if Contains(Lower(raw), "missing") || Contains(Lower(raw), "not present") then
          FallbackVerdict(NotPresentFeedback, NullSql)
        else
          FallbackVerdict(NonJsonPrefix + Take(raw, PreviewLength) + "...", sql)
  }

  /** The service never makes `semantic_reflection` raise: a failed call keeps the query. */
  lemma SemanticFailureKeepsQuery(sql: string, reason: string, parse: string -> Parse)
    ensures var r := SemanticReflection(sql, Failed(reason), parse);
      && r.JObj? && r.fields["refined_sql"] == JStr(sql)
      && r.fields["feedback"].JStr?
      && r.fields["feedback"].text[..|FailurePrefix|] == FailurePrefix
  {
  }

  /** A fallback dict has exactly the two keys, both holding str. */
  lemma FallbackVerdictFields(feedback: string, refinedSql: string)
    ensures var r := FallbackVerdict(feedback, refinedSql);
      && r.JObj? && r.fields.Keys == {"feedback", "refined_sql"}
      && r.fields["feedback"] == JStr(feedback) && r.fields["refined_sql"] == JStr(refinedSql)
  {
    assert "feedback" != "refined_sql" by {
      assert "feedback"[0] != "refined_sql"[0];
    }
  }

  /**
   * A non-JSON reply yields the sentinel exactly when it speaks of missing
   * or absent fields, in any case; otherwise the query is kept and the
   * feedback quotes at most the first 120 characters of the reply.
   */
  lemma SemanticNonJsonClassified(sql: string, content: string, parse: string -> Parse)
    requires parse(Strip(content)) == NotJson
    ensures var raw := Strip(content);
      var r := SemanticReflection(sql, Completed(content), parse);
      var speaksOfMissing := Contains(Lower(raw), "missing") || Contains(Lower(raw), "not present");
      var quoted := Take(raw, PreviewLength);
      && r.JObj? && r.fields.Keys == {"feedback", "refined_sql"}
      && (speaksOfMissing ==> r.fields["refined_sql"] == JStr(NullSql)
                              && r.fields["feedback"] == JStr(NotPresentFeedback))
      && (!speaksOfMissing ==>
            && r.fields["refined_sql"] == JStr(sql)
            && r.fields["feedback"] == JStr(NonJsonPrefix + quoted + "...")
            && quoted == raw[..|quoted|]
            && (|raw| <= PreviewLength ==> quoted == raw)
            && (|raw| > PreviewLength ==> |quoted| == PreviewLength))
  {
    var raw := Strip(content);
    var quoted := Take(raw, PreviewLength);
    FallbackVerdictFields(NotPresentFeedback, NullSql);
    FallbackVerdictFields(NonJsonPrefix + quoted + "...", sql);
  }

  // ---------- Explanation (reflection_engine.py:118-141) ----------

  const ExplanationFailurePrefix := "(\U{26A0}\U{FE0F} Explanation generation failed: "

  /** `generate_reflection_explanation`: the stripped reply, or a note that the call failed. */
  function GenerateExplanation(reply: Reply): string {
    match reply
    case Completed(content) => Strip(content)
    case Failed(reason) => ExplanationFailurePrefix + reason + ")"
  }

  // ---------- Combined reflection (reflection_engine.py:144-196) ----------

  const NegativeFixFeedback :=
    "Detected negative totals from refunds " + "\U{2192} added ABS() around SUM() for correction."
  const NoSemanticIssues := "No semantic issues detected."
  const NoMatchExplanation :=
    "There\U{2019}s no matching column for your question in the database schema. "
    + "Try rephrasing your question using available fields such as 'product_name', 'category', or 'region'."

  /** The feedback of the static fallback, which prints the Python list of the missing words. */
  function StaticFallbackFeedback(missing: seq<string>): string {
    "The question references " + "missing field(s): " + PyListRepr(missing) + ". Please rephrase or use available fields."
  }

  /** The dict `reflect` returns. The feedback is whatever the verdict held, so not always a str. */
  datatype Verdict = Verdict(issues: seq<Issue>, feedback: Json, refinedSql: string, explanation: string)

  datatype Outcome = Done(verdict: Verdict) | Raised(cause: Cause)

  /** The verdict's explanation: the fixed "no matching column" text replaces the model's for the sentinel. */
  function FinalExplanation(refinedSql: string, explanationReply: Reply): string {
    if IsNullSentinel(refinedSql) then NoMatchExplanation else GenerateExplanation(explanationReply)
  }

  /** The model kept the query, up to case and surrounding whitespace. */
  predicate KeptQuery(sql: string, refinedSql: string) {
    Upper(Strip(refinedSql)) == Upper(Strip(sql))
  }

  /** The model's feedback says "missing", in any case. */
  predicate SaysMissing(feedback: string) {
    Contains(Lower(feedback), "missing")
  }

  /** The static fallback runs: the model kept the query and its feedback does not say "missing". */
  predicate FallbackApplies(sql: string, refinedSql: string, feedback: string) {
    KeptQuery(sql, refinedSql) && !SaysMissing(feedback)
  }

  /** The semantic stage of `reflect`, given the issues and the semantic verdict `llm`. */
  function SemanticStage(question: string, sql: string, schema: string, issues: seq<Issue>,
                         llm: Json, explanationReply: Reply): Outcome
  {
    if !llm.JObj? then Raised(ReplyNotObject)
    else
      var refined := Get(llm.fields, "refined_sql", JStr(sql));
      var feedback := Get(llm.fields, "feedback", JStr(NoSemanticIssues));
      if !refined.JStr? then Raised(RefinedNotText)
      else if KeptQuery(sql, refined.text) && !feedback.JStr? then Raised(FeedbackNotText)
      else
        var missing := MissingFields(question, schema);
        var forced := feedback.JStr? && FallbackApplies(sql, refined.text, feedback.text) && missing != [];
        var refinedSql := if forced then NullSql else refined.text;
        Done(Verdict(issues,
                     if forced then JStr(StaticFallbackFeedback(missing)) else feedback,
                     refinedSql,
                     FinalExplanation(refinedSql, explanationReply)))
  }

  /** The negative-value fix: every `SUM(x)` wrapped in `ABS`, the fixed feedback and the model's explanation. */
  function NegativeFix(issues: seq<Issue>, sql: string, explanationReply: Reply): Outcome {
    Done(Verdict(issues, JStr(NegativeFixFeedback), SumAbs(sql), GenerateExplanation(explanationReply)))
  }

  /**
   * `reflect` once the issues and the model's semantic verdict are known,
   * as written: the negative-value fix is triggered by any issue whose text
   * contains "Negative", and the semantic verdict is then never consulted.
   */
  function ReflectFrom(anomalies: Result<seq<Issue>, Cause>, question: string, sql: string, schema: string,
                       llm: Json, explanationReply: Reply): Outcome
  {
    match anomalies
    case Err(cause) => Raised(cause)
    case Ok(issues) =>
      if MentionsNegative(issues) then NegativeFix(issues, sql, explanationReply)
      else SemanticStage(question, sql, schema, issues, llm, explanationReply)
  }

  /** What `reflect(question, sql_query, df, schema)` returns or raises. */
  function ReflectOutcome(question: string, sql: string, df: Frame, schema: string,
                          semanticReply: Reply, parse: string -> Parse, explanationReply: Reply): Outcome
  {
    ReflectFrom(Anomalies(df), question, sql, schema, SemanticReflection(sql, semanticReply, parse), explanationReply)
  }

  /**
   * `reflect` with the trigger corrected to the negative-value issue itself,
   * so that a column merely named "Negative" no longer sets it off.
   */
  function CorrectedReflectFrom(anomalies: Result<seq<Issue>, Cause>, question: string, sql: string,
                                schema: string, llm: Json, explanationReply: Reply): Outcome
  {
    match anomalies
    case Err(cause) => Raised(cause)
    case Ok(issues) =>
      if NegativeValues in issues then NegativeFix(issues, sql, explanationReply)
      else SemanticStage(question, sql, schema, issues, llm, explanationReply)
  }

  /** What the corrected `reflect` returns or raises. */
  function CorrectedReflectOutcome(question: string, sql: string, df: Frame, schema: string,
                                   semanticReply: Reply, parse: string -> Parse, explanationReply: Reply): Outcome
  {
    CorrectedReflectFrom(Anomalies(df), question, sql, schema, SemanticReflection(sql, semanticReply, parse),
                         explanationReply)
  }

  /** `reflect`: each stage reassigns the feedback, the refined query and the explanation in turn. */
  method Reflect(question: string, sql: string, df: Frame, schema: string,
                 semanticReply: Reply, parse: string -> Parse, explanationReply: Reply)
    returns (out: Outcome)
    ensures out == ReflectOutcome(question, sql, df, schema, semanticReply, parse, explanationReply)
  {
    var anomalies := DetectOutputAnomalies(df);
    if anomalies.Err? {
      return Raised(anomalies.error);
    }
    var issues := anomalies.value;

    if MentionsNegative(issues) {
      var fixedSql := SumAbs(sql);
      var fixFeedback := NegativeFixFeedback;
      var fixExplanation := GenerateExplanation(explanationReply);
      return Done(Verdict(issues, JStr(fixFeedback), fixedSql, fixExplanation));
    }

    var llm := SemanticReflection(sql, semanticReply, parse);
    out := ApplySemanticVerdict(question, sql, schema, issues, llm, explanationReply);
  }

  /** The semantic stage of `reflect`: reads the verdict's fields, applies the static fallback and picks the explanation. */
  method ApplySemanticVerdict(question: string, sql: string, schema: string, issues: seq<Issue>,
                              llm: Json, explanationReply: Reply)
    returns (out: Outcome)
    ensures out == SemanticStage(question, sql, schema, issues, llm, explanationReply)
  {
    ghost var expected := SemanticStage(question, sql, schema, issues, llm, explanationReply);
    if !llm.JObj? {
      return Raised(ReplyNotObject);
    }
    var refined := Get(llm.fields, "refined_sql", JStr(sql));
    var feedback := Get(llm.fields, "feedback", JStr(NoSemanticIssues));
    if !refined.JStr? {
      return Raised(RefinedNotText);
    }
    var refinedSql := refined.text;

    if KeptQuery(sql, refinedSql) {
      if !feedback.JStr? {
        assert expected == Raised(FeedbackNotText);
        return Raised(FeedbackNotText);
      }
      if !SaysMissing(feedback.text) {
        var missing := DetectMissingFields(question, schema);
        if missing != [] {
          feedback := JStr(StaticFallbackFeedback(missing));
          refinedSql := NullSql;
        }
      }
    }

    var explanation := GenerateExplanation(explanationReply);
    if IsNullSentinel(refinedSql) {
      explanation := NoMatchExplanation;
    }
    assert explanation == FinalExplanation(refinedSql, explanationReply);
    return Done(Verdict(issues, feedback, refinedSql, explanation));
  }

  /** A verdict keeps the issues it was given, and the semantic stage never raises the region error. */
  lemma ReflectFromKeepsIssues(anomalies: Result<seq<Issue>, Cause>, question: string, sql: string,
                               schema: string, llm: Json, explanationReply: Reply)
    ensures var out := ReflectFrom(anomalies, question, sql, schema, llm, explanationReply);
      && (out.Done? ==> anomalies == Ok(out.verdict.issues))
      && (anomalies.Err? ==> out == Raised(anomalies.error))
      && (anomalies.Ok? ==> out != Raised(RegionNotUnique))
  {
  }

  /** The verdict's issues are those `detect_output_anomalies` reports, and the region error is raised exactly when detection raises it. */
  lemma ReflectKeepsIssues(question: string, sql: string, df: Frame, schema: string,
                           semanticReply: Reply, parse: string -> Parse, explanationReply: Reply)
    ensures var out := ReflectOutcome(question, sql, df, schema, semanticReply, parse, explanationReply);
      && (out.Done? ==> Anomalies(df) == Ok(out.verdict.issues))
      && (out == Raised(RegionNotUnique) <==> Anomalies(df).Err?)
  {
    ReflectFromKeepsIssues(Anomalies(df), question, sql, schema,
                           SemanticReflection(sql, semanticReply, parse), explanationReply);
  }

  /**
   * When the text of some issue contains "Negative" (as it does whenever a
   * numeric column of a non-empty result holds a negative number, see
   * `NegativeTriggerCorrected`), `reflect` rewrites every `SUM(x)` to
   * `SUM(ABS(x))` with the fixed feedback, whatever the question, the
   * schema, the semantic reply or the parser: the semantic stage is never
   * consulted. The query changes exactly when it has such a call.
   */
  lemma ReflectNegativeBranch(question: string, sql: string, df: Frame, schema: string,
                              semanticReply: Reply, parse: string -> Parse, explanationReply: Reply,
                              question2: string, schema2: string, semanticReply2: Reply, parse2: string -> Parse)
    requires Anomalies(df).Ok? && MentionsNegative(Anomalies(df).value)
    ensures var out := ReflectOutcome(question, sql, df, schema, semanticReply, parse, explanationReply);
      && out == ReflectOutcome(question2, sql, df, schema2, semanticReply2, parse2, explanationReply)
      && out.Done?
      && out.verdict.issues == Anomalies(df).value
      && out.verdict.feedback == JStr(NegativeFixFeedback)
      && out.verdict.refinedSql == SumAbs(sql)
      && (out.verdict.refinedSql == sql <==> !HasSumCall(sql))
  {
    SumAbsChangesIff(sql);
  }

  /** The semantic stage in the case where the verdict's fields are str. */
  lemma SemanticStageForcesNullIff(question: string, sql: string, schema: string, issues: seq<Issue>,
                                   llm: Json, explanationReply: Reply)
    requires llm.JObj? && Get(llm.fields, "refined_sql", JStr(sql)).JStr?
    requires Get(llm.fields, "feedback", JStr(NoSemanticIssues)).JStr?
    ensures var refined := Get(llm.fields, "refined_sql", JStr(sql)).text;
      var feedback := Get(llm.fields, "feedback", JStr(NoSemanticIssues)).text;
      var missing := MissingFields(question, schema);
      var out := SemanticStage(question, sql, schema, issues, llm, explanationReply);
      && out.Done?
      && (FallbackApplies(sql, refined, feedback) && missing != [] ==>
            out.verdict.refinedSql == NullSql
            && out.verdict.feedback == JStr(StaticFallbackFeedback(missing))
            && out.verdict.explanation == NoMatchExplanation)
      && (!(FallbackApplies(sql, refined, feedback) && missing != []) ==>
            out.verdict.refinedSql == refined && out.verdict.feedback == JStr(feedback))
  {
    var refined := Get(llm.fields, "refined_sql", JStr(sql)).text;
    var feedback := Get(llm.fields, "feedback", JStr(NoSemanticIssues)).text;
    if FallbackApplies(sql, refined, feedback) && MissingFields(question, schema) != [] {
      SemanticStageForced(question, sql, schema, issues, llm, explanationReply);
    } else {
      SemanticStageNotForced(question, sql, schema, issues, llm, explanationReply);
    }
  }

  /** The forcing half of `SemanticStageForcesNullIff`. */
  lemma SemanticStageForced(question: string, sql: string, schema: string, issues: seq<Issue>,
                            llm: Json, explanationReply: Reply)
    requires llm.JObj? && Get(llm.fields, "refined_sql", JStr(sql)).JStr?
    requires Get(llm.fields, "feedback", JStr(NoSemanticIssues)).JStr?
    requires FallbackApplies(sql, Get(llm.fields, "refined_sql", JStr(sql)).text,
                             Get(llm.fields, "feedback", JStr(NoSemanticIssues)).text)
    requires MissingFields(question, schema) != []
    ensures var out := SemanticStage(question, sql, schema, issues, llm, explanationReply);
      && out.Done?
      && out.verdict.refinedSql == NullSql
      && out.verdict.feedback == JStr(StaticFallbackFeedback(MissingFields(question, schema)))
      && out.verdict.explanation == NoMatchExplanation
  {
    NullSqlIsSentinel();
  }

  /** The other half of `SemanticStageForcesNullIff`: the model's verdict is kept. */
  lemma SemanticStageNotForced(question: string, sql: string, schema: string, issues: seq<Issue>,
                               llm: Json, explanationReply: Reply)
    requires llm.JObj? && Get(llm.fields, "refined_sql", JStr(sql)).JStr?
    requires Get(llm.fields, "feedback", JStr(NoSemanticIssues)).JStr?
    requires !(FallbackApplies(sql, Get(llm.fields, "refined_sql", JStr(sql)).text,
                               Get(llm.fields, "feedback", JStr(NoSemanticIssues)).text)
               && MissingFields(question, schema) != [])
    ensures var out := SemanticStage(question, sql, schema, issues, llm, explanationReply);
      && out.Done?
      && out.verdict.refinedSql == Get(llm.fields, "refined_sql", JStr(sql)).text
      && out.verdict.feedback == Get(llm.fields, "feedback", JStr(NoSemanticIssues))
  {
  }

  lemma NullSqlIsSentinel()
    ensures IsNullSentinel(NullSql)
  {
    StripTrimmed(NullSql);
    assert Upper(NullSql) == NullSql;
  }

  /**
   * When no issue's text contains "Negative", so that the semantic stage
   * runs, and the model's verdict is a dict whose "refined_sql" and
   * "feedback" (or their defaults) are str, the query is
   * replaced by "NULL" with the static feedback exactly when the model kept
   * the query, its feedback does not say "missing", and the static check
   * finds missing words; otherwise the model's verdict is returned as is.
   */
  lemma ReflectForcesNullIff(question: string, sql: string, df: Frame, schema: string,
                             semanticReply: Reply, parse: string -> Parse, explanationReply: Reply)
    requires Anomalies(df).Ok? && !MentionsNegative(Anomalies(df).value)
    requires var llm := SemanticReflection(sql, semanticReply, parse);
      llm.JObj? && Get(llm.fields, "refined_sql", JStr(sql)).JStr?
      && Get(llm.fields, "feedback", JStr(NoSemanticIssues)).JStr?
    ensures var llm := SemanticReflection(sql, semanticReply, parse);
      var refined := Get(llm.fields, "refined_sql", JStr(sql)).text;
      var feedback := Get(llm.fields, "feedback", JStr(NoSemanticIssues)).text;
      var missing := MissingFields(question, schema);
      var out := ReflectOutcome(question, sql, df, schema, semanticReply, parse, explanationReply);
      && out.Done?
      && (FallbackApplies(sql, refined, feedback) && missing != [] ==>
            out.verdict.refinedSql == NullSql
            && out.verdict.feedback == JStr(StaticFallbackFeedback(missing))
            && out.verdict.explanation == NoMatchExplanation)
      && (!(FallbackApplies(sql, refined, feedback) && missing != []) ==>
            out.verdict.refinedSql == refined && out.verdict.feedback == JStr(feedback))
  {
    var llm := SemanticReflection(sql, semanticReply, parse);
    SemanticStageForcesNullIff(question, sql, schema, Anomalies(df).value, llm, explanationReply);
  }

  /** The semantic stage explains a "NULL" query with the fixed text, and any other query with the model's text. */
  lemma SemanticStageExplanation(question: string, sql: string, schema: string, issues: seq<Issue>,
                                 llm: Json, explanationReply: Reply)
    requires SemanticStage(question, sql, schema, issues, llm, explanationReply).Done?
    ensures var v := SemanticStage(question, sql, schema, issues, llm, explanationReply).verdict;
      && (IsNullSentinel(v.refinedSql) ==> v.explanation == NoMatchExplanation)
      && (!IsNullSentinel(v.refinedSql) ==> v.explanation == GenerateExplanation(explanationReply))
  {
  }

  /**
   * Whenever the semantic stage runs (no issue's text contains "Negative")
   * and ends with a query that reads "NULL" (in any case, with any
   * surrounding whitespace) the explanation is the fixed "no matching
   * column" text, and otherwise it is the model's.
   */
  lemma ReflectSentinelExplanation(question: string, sql: string, df: Frame, schema: string,
                                   semanticReply: Reply, parse: string -> Parse, explanationReply: Reply)
    requires var out := ReflectOutcome(question, sql, df, schema, semanticReply, parse, explanationReply);
      out.Done? && !MentionsNegative(out.verdict.issues)
    ensures var v := ReflectOutcome(question, sql, df, schema, semanticReply, parse, explanationReply).verdict;
      && (IsNullSentinel(v.refinedSql) ==> v.explanation == NoMatchExplanation)
      && (!IsNullSentinel(v.refinedSql) ==> v.explanation == GenerateExplanation(explanationReply))
  {
    var llm := SemanticReflection(sql, semanticReply, parse);
    ReflectFromKeepsIssues(Anomalies(df), question, sql, schema, llm, explanationReply);
    SemanticStageExplanation(question, sql, schema, Anomalies(df).value, llm, explanationReply);
  }

  /** Every fallback verdict is a dict whose two fields are str. */
  lemma FallbackVerdictsWellFormed(sql: string, semanticReply: Reply, parse: string -> Parse)
    requires semanticReply.Failed? || !parse(Strip(semanticReply.content)).Parsed?
    ensures var llm := SemanticReflection(sql, semanticReply, parse);
      && llm.JObj?
      && Get(llm.fields, "refined_sql", JStr(sql)).JStr?
      && Get(llm.fields, "feedback", JStr(NoSemanticIssues)).JStr?
  {
  }

  /**
   * When the service call fails or the reply is not JSON, the fallback
   * verdicts are well-formed dicts, so `reflect` can only raise for the
   * "region" columns.
   */
  lemma ReflectFallbacksNeverRaise(question: string, sql: string, df: Frame, schema: string,
                                   semanticReply: Reply, parse: string -> Parse, explanationReply: Reply)
    requires semanticReply.Failed? || !parse(Strip(semanticReply.content)).Parsed?
    ensures var out := ReflectOutcome(question, sql, df, schema, semanticReply, parse, explanationReply);
      out.Raised? ==> out.cause == RegionNotUnique
  {
    FallbackVerdictsWellFormed(sql, semanticReply, parse);
    DetectionRaisesOnlyRegion(df);
    WellFormedVerdictNeverRaises(Anomalies(df), question, sql, schema,
                                 SemanticReflection(sql, semanticReply, parse), explanationReply);
  }

  /** Detection raises only for several "region" columns. */
  lemma DetectionRaisesOnlyRegion(df: Frame)
    ensures Anomalies(df).Err? ==> Anomalies(df).error == RegionNotUnique
  {
  }

  /** With a well-formed semantic verdict, `reflect` raises only what detection raised. */
  lemma WellFormedVerdictNeverRaises(anomalies: Result<seq<Issue>, Cause>, question: string, sql: string,
                                     schema: string, llm: Json, explanationReply: Reply)
    requires llm.JObj? && Get(llm.fields, "refined_sql", JStr(sql)).JStr?
    requires Get(llm.fields, "feedback", JStr(NoSemanticIssues)).JStr?
    ensures var out := ReflectFrom(anomalies, question, sql, schema, llm, explanationReply);
      out.Raised? ==> anomalies.Err? && out.cause == anomalies.error
  {
    if anomalies.Ok? && !MentionsNegative(anomalies.value) {
      SemanticStageForcesNullIff(question, sql, schema, anomalies.value, llm, explanationReply);
    }
  }

  /** An empty result never raises in detection, and a verdict for it reports only the empty-result issue. */
  lemma ReflectEmptyResult(question: string, sql: string, df: Frame, schema: string,
                           semanticReply: Reply, parse: string -> Parse, explanationReply: Reply)
    requires IsEmpty(df)
    ensures var out := ReflectOutcome(question, sql, df, schema, semanticReply, parse, explanationReply);
      && out != Raised(RegionNotUnique)
      && (out.Done? ==> out.verdict.issues == [EmptyResult])
  {
    ReflectFromKeepsIssues(Anomalies(df), question, sql, schema,
                           SemanticReflection(sql, semanticReply, parse), explanationReply);
  }

  /**
   * The corrected `reflect` on a non-empty result whose detection succeeds:
   * it applies the negative-value fix exactly when a numeric column holds
   * a negative number, agreeing then with `reflect` as written, and
   * otherwise hands over to the semantic stage.
   */
  lemma CorrectedReflectNegativeIff(question: string, sql: string, df: Frame, schema: string,
                                    semanticReply: Reply, parse: string -> Parse, explanationReply: Reply)
    requires !IsEmpty(df) && Anomalies(df).Ok?
    ensures var out := CorrectedReflectOutcome(question, sql, df, schema, semanticReply, parse, explanationReply);
      var issues := Anomalies(df).value;
      && (HasNegative(df) ==>
            out == NegativeFix(issues, sql, explanationReply)
            && out == ReflectOutcome(question, sql, df, schema, semanticReply, parse, explanationReply))
      && (!HasNegative(df) ==>
            out == SemanticStage(question, sql, schema, issues, SemanticReflection(sql, semanticReply, parse),
                                 explanationReply))
  {
    NegativeTriggerCorrected(df);
  }

  /** `reflect` as written applies the fix once some issue's text contains "Negative". */
  lemma ReflectFromMentioned(issues: seq<Issue>, question: string, sql: string, schema: string,
                             llm: Json, explanationReply: Reply)
    requires MentionsNegative(issues)
    ensures ReflectFrom(Ok(issues), question, sql, schema, llm, explanationReply)
      == NegativeFix(issues, sql, explanationReply)
  {
  }

  /** Without the negative-value issue the corrected `reflect` hands over to the semantic stage. */
  lemma CorrectedReflectFromUnmarked(issues: seq<Issue>, question: string, sql: string, schema: string,
                                     llm: Json, explanationReply: Reply)
    requires NegativeValues !in issues
    ensures CorrectedReflectFrom(Ok(issues), question, sql, schema, llm, explanationReply)
      == SemanticStage(question, sql, schema, issues, llm, explanationReply)
  {
  }

  /**
   * After a failed semantic call the semantic stage answers with a verdict
   * whose feedback is not the negative-value fix's.
   */
  lemma FailedCallFeedback(question: string, sql: string, schema: string, issues: seq<Issue>,
                           reason: string, parse: string -> Parse, explanationReply: Reply)
    ensures var out := SemanticStage(question, sql, schema, issues, SemanticReflection(sql, Failed(reason), parse),
                                     explanationReply);
      out.Done? && out.verdict.feedback != JStr(NegativeFixFeedback)
  {
    var llm := SemanticReflection(sql, Failed(reason), parse);
    FallbackVerdictFields(FailurePrefix + reason, sql);
    SemanticStageForcesNullIff(question, sql, schema, issues, llm, explanationReply);
    FailureFeedbackIsNotFix(reason);
    StaticFeedbackIsNotFix(MissingFields(question, schema));
  }

  /** A failure's feedback is never the negative-value fix's. */
  lemma FailureFeedbackIsNotFix(reason: string)
    ensures FailurePrefix + reason != NegativeFixFeedback
  {
    assert (FailurePrefix + reason)[0] == 'S' && NegativeFixFeedback[0] == 'D';
  }

  /** The static fallback's feedback is never the negative-value fix's. */
  lemma StaticFeedbackIsNotFix(missing: seq<string>)
    ensures StaticFallbackFeedback(missing) != NegativeFixFeedback
  {
    assert StaticFallbackFeedback(missing)[0] == 'T' && NegativeFixFeedback[0] == 'D';
  }

  /**
   * Where some issue's text contains "Negative" but the negative-value
   * issue is absent, the two triggers part ways: when the semantic call
   * fails, `reflect` as written applies the negative-value fix, while the
   * corrected `reflect` keeps the semantic stage's feedback.
   */
  lemma ReflectTriggersPartWays(question: string, sql: string, df: Frame, schema: string, reason: string,
                                parse: string -> Parse, explanationReply: Reply)
    requires Anomalies(df).Ok? && MentionsNegative(Anomalies(df).value) && NegativeValues !in Anomalies(df).value
    ensures var written := ReflectOutcome(question, sql, df, schema, Failed(reason), parse, explanationReply);
      var corrected := CorrectedReflectOutcome(question, sql, df, schema, Failed(reason), parse, explanationReply);
      && written == NegativeFix(Anomalies(df).value, sql, explanationReply)
      && corrected.Done?
      && corrected.verdict.feedback != written.verdict.feedback
  {
    var issues := Anomalies(df).value;
    var llm := SemanticReflection(sql, Failed(reason), parse);
    ReflectFromMentioned(issues, question, sql, schema, llm, explanationReply);
    CorrectedReflectFromUnmarked(issues, question, sql, schema, llm, explanationReply);
    FailedCallFeedback(question, sql, schema, issues, reason, parse, explanationReply);
  }

  /**
   * The two triggers part ways on a result whose only column, named
   * "Negative", is NULL.
   */
  lemma ReflectTriggerDiffers(question: string, sql: string, schema: string, reason: string,
                              parse: string -> Parse, explanationReply: Reply)
    ensures var written := ReflectOutcome(question, sql, NullNegativeColumn, schema, Failed(reason), parse,
                                          explanationReply);
      var corrected := CorrectedReflectOutcome(question, sql, NullNegativeColumn, schema, Failed(reason), parse,
                                               explanationReply);
      && written == NegativeFix([NullColumns([NegativeWord])], sql, explanationReply)
      && corrected.Done?
      && corrected.verdict.feedback != written.verdict.feedback
  {
    NegativeTriggerCounterexample();
    ReflectTriggersPartWays(question, sql, NullNegativeColumn, schema, reason, parse, explanationReply);
  }
}

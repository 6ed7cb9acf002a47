/**
 * Text-level handling of SQL shared by the engine and the three scripts:
 * removing Markdown code fences from a model's answer, the deterministic
 * `SUM(x)` to `SUM(ABS(x))` rewrite, and the tests on the `NULL` sentinel
 * that decide what the pages show and run.
 */
module SqlText {
  import opened Text

  const Fence := "```"
  const SqlFence := "```sql"

  /** `clean_sql`: drop every "```sql", then every "```", then strip. */
  function CleanSql(sql: string): string {
    Strip(Replace(Replace(sql, SqlFence, ""), Fence, ""))
  }

  /** What `generate_sql` makes of the model's answer in each script: the stripped answer, cleaned. */
  function CleanReply(content: string): string {
    CleanSql(Strip(content))
  }

  /** Removing fences keeps the first character when it is not a backtick. */
  lemma FenceRemovalKeepsHead(s: string)
    requires s != [] && s[0] != '`'
    ensures Replace(s, Fence, "") != [] && Replace(s, Fence, "")[0] == s[0]
  {
  }

  /** After every "```" is removed, left to right, none is left. */
  lemma {:induction false} FenceRemovalLeavesNoFence(s: string)
    ensures !Contains(Replace(s, Fence, ""), Fence)
    decreases |s|
  {
    assert |Fence| == 3;
    if |s| < 3 {
      assert Replace(s, Fence, "") == s;
    } else if s[..3] == Fence {
      assert Replace(s, Fence, "") == "" + Replace(s[3..], Fence, "");
      assert "" + Replace(s[3..], Fence, "") == Replace(s[3..], Fence, "");
      FenceRemovalLeavesNoFence(s[3..]);
    } else {
      var t := Replace(s[1..], Fence, "");
      FenceRemovalLeavesNoFence(s[1..]);
      var r := [s[0]] + t;
      assert Replace(s, Fence, "") == r;
      if |r| >= 3 {
        FenceRemovalStep(s, t);
        assert r[1..] == t;
      }
    }
  }

  /** The character kept in front of the rest cannot begin a new fence. */
  lemma FenceRemovalStep(s: string, t: string)
    requires |s| >= 3 && s[..3] != Fence && t == Replace(s[1..], Fence, "")
    requires |[s[0]] + t| >= 3
    ensures ([s[0]] + t)[..3] != Fence
  {
    var r := [s[0]] + t;
    if s[0] == '`' {
      if s[1] != '`' {
        FenceRemovalKeepsHead(s[1..]);
        assert r[1] != '`';
      } else {
        assert s[2] != '`';
        if |s| > 3 {
          assert s[1..][..3] != Fence;
          FenceRemovalKeepsHead(s[2..]);
          assert s[1..][1..] == s[2..];
          assert t == [s[1]] + Replace(s[2..], Fence, "");
        } else {
          assert t == s[1..];
        }
        assert r[2] != '`';
      }
    }
  }

  /** An occurrence of `p + q` is an occurrence of `p`. */
  lemma {:induction false} ContainsLonger(s: string, p: string, q: string)
    requires Contains(s, p + q)
    ensures Contains(s, p)
    decreases |s|
  {
    if s[..|p + q|] == p + q {
      assert s[..|p|] == p;
    } else {
      ContainsLonger(s[1..], p, q);
    }
  }

  /** Stripping cannot create an occurrence. */
  lemma StripKeepsAbsence(u: string, p: string)
    requires !Contains(u, p)
    ensures !Contains(Strip(u), p)
  {
    var lo := StripIsSlice(u);
    if Contains(Strip(u), p) {
      ContainsInSlice(u, p, lo, lo + |Strip(u)|);
    }
  }

  /** `clean_sql` leaves no code fence in the query. */
  lemma CleanSqlRemovesFences(sql: string)
    ensures !Contains(CleanSql(sql), Fence)
    ensures !Contains(CleanSql(sql), SqlFence)
  {
    FenceRemovalLeavesNoFence(Replace(sql, SqlFence, ""));
    StripLeavesNoFence(Replace(Replace(sql, SqlFence, ""), Fence, ""));
  }

  /** Stripping a text without "```" leaves neither kind of fence. */
  lemma StripLeavesNoFence(u: string)
    requires !Contains(u, Fence)
    ensures !Contains(Strip(u), Fence) && !Contains(Strip(u), SqlFence)
  {
    StripKeepsAbsence(u, Fence);
    if Contains(Strip(u), SqlFence) {
      assert SqlFence == Fence + "sql";
      ContainsLonger(Strip(u), Fence, "sql");
    }
  }

  /** On a query without backticks, `clean_sql` only strips. */
  lemma CleanSqlOnlyTrims(sql: string)
    requires '`' !in sql
    ensures CleanSql(sql) == Strip(sql)
  {
    if Contains(sql, SqlFence) { ContainsHead(sql, SqlFence); }
    ReplaceAbsent(sql, SqlFence, "");
    if Contains(sql, Fence) { ContainsHead(sql, Fence); }
    ReplaceAbsent(sql, Fence, "");
  }

  /** Cleaning a cleaned query changes nothing. */
  lemma CleanSqlIdempotent(sql: string)
    ensures CleanSql(CleanSql(sql)) == CleanSql(sql)
  {
    var c := CleanSql(sql);
    CleanSqlRemovesFences(sql);
    ReplaceAbsent(c, SqlFence, "");
    ReplaceAbsent(c, Fence, "");
    StripIdempotent(Replace(Replace(sql, SqlFence, ""), Fence, ""));
  }

  /** Length of the run of characters other than `)` that starts `s`: the greedy `[^)]+`. */
  function ArgLength(s: string): (n: nat)
    ensures n <= |s|
    ensures forall i :: 0 <= i < n ==> s[i] != ')'
    ensures n < |s| ==> s[n] == ')'
  {
    if s == [] || s[0] == ')' then 0 else 1 + ArgLength(s[1..])
  }

  lemma {:induction false} ArgLengthOf(arg: string, t: string)
    requires ')' !in arg
    ensures ArgLength(arg + ")" + t) == |arg|
  {
    if arg != [] {
      assert (arg + ")" + t)[1..] == arg[1..] + ")" + t;
      ArgLengthOf(arg[1..], t);
    }
  }

  /**
   * The regular expression `SUM\(([^)]+)\)` under `re.IGNORECASE` matches at
   * the start of `s`: "sum(" in any case, a non-empty run without `)`, then `)`.
   */
  predicate SumCallAt(s: string) {
    |s| >= 4 && MatchesIgnoreCase(s[..4], "SUM(") && 0 < ArgLength(s[4..]) < |s| - 4
  }

  /** The pattern matches somewhere in `s`. */
  predicate HasSumCall(s: string) {
    exists i :: 0 <= i < |s| && SumCallAt(s[i..])
  }

  /** The replacement `SUM(ABS(\1))` for a captured argument. */
  function AbsCall(arg: string): string {
    "SUM(ABS(" + arg + "))"
  }

  /**
   * `re.sub(r"SUM\(([^)]+)\)", r"SUM(ABS(\1))", s, flags=re.IGNORECASE)`:
   * matches are taken left to right without overlap, and each becomes
   * "SUM(ABS(" + the run + "))" in upper case.
   */
  function SumAbs(s: string): string
    decreases |s|
  {
    if s == [] then []
    else if SumCallAt(s) then
      var n := ArgLength(s[4..]);
      AbsCall(s[4..4 + n]) + SumAbs(s[5 + n..])
    else [s[0]] + SumAbs(s[1..])
  }

  /** Text before the first match is copied unchanged. */
  lemma {:induction false} SumAbsSkips(p: string, u: string)
    requires forall i :: 0 <= i < |p| ==> !SumCallAt((p + u)[i..])
    ensures SumAbs(p + u) == p + SumAbs(u)
    decreases |p|
  {
    if p == [] {
      assert p + u == u;
    } else {
      var s := p + u;
      assert s[0..] == s;
      assert s[1..] == p[1..] + u;
      forall i | 0 <= i < |p| - 1
        ensures !SumCallAt((p[1..] + u)[i..])
      {
        assert (p[1..] + u)[i..] == s[i + 1..];
      }
      SumAbsSkips(p[1..], u);
      SumAbsNoMatchAt(s);
      HeadThenRest(p, SumAbs(s), SumAbs(p[1..] + u), SumAbs(u));
    }
  }

  /** Where no match starts, the first character is copied. */
  lemma SumAbsNoMatchAt(s: string)
    requires s != [] && !SumCallAt(s)
    ensures SumAbs(s) == [s[0]] + SumAbs(s[1..])
  {
  }

  /** A query in which the pattern never matches is returned unchanged. */
  lemma SumAbsNoCall(s: string)
    requires !HasSumCall(s)
    ensures SumAbs(s) == s
  {
    assert s + [] == s;
    SumAbsSkips(s, []);
  }

  /** The rewrite never shortens a query, and lengthens it whenever the pattern matches. */
  lemma {:induction false} SumAbsGrows(s: string)
    ensures |SumAbs(s)| >= |s|
    ensures HasSumCall(s) ==> |SumAbs(s)| > |s|
    decreases |s|
  {
    if s != [] {
      if SumCallAt(s) {
        var n := ArgLength(s[4..]);
        SumAbsGrows(s[5 + n..]);
      } else {
        SumAbsGrows(s[1..]);
        if HasSumCall(s) {
          var i :| 0 <= i < |s| && SumCallAt(s[i..]);
          assert i > 0 && s[1..][i - 1..] == s[i..];
        }
      }
    }
  }

  /** The rewrite changes a query exactly when the pattern matches in it. */
  lemma SumAbsChangesIff(s: string)
    ensures SumAbs(s) == s <==> !HasSumCall(s)
  {
    SumAbsGrows(s);
    if !HasSumCall(s) {
      SumAbsNoCall(s);
    }
  }

  /**
   * A prefix holding no case-insensitive "SUM(", followed by text into
   * which no "SUM(" can run across, is copied unchanged.
   */
  lemma SumAbsKeepsFree(p: string, u: string)
    requires FreeOfIgnoreCase(p, "SUM(") && NoMatchAcross(u, "SUM(")
    ensures SumAbs(p + u) == p + SumAbs(u)
  {
    NoMatchInFreePrefix(p, u, "SUM(");
    forall i | 0 <= i < |p|
      ensures !SumCallAt((p + u)[i..])
    {
      assert !StartsWithIgnoreCase((p + u)[i..], "SUM(");
    }
    SumAbsSkips(p, u);
  }

  /** A query holding no case-insensitive "SUM(" is unchanged. */
  lemma SumAbsFree(s: string)
    requires FreeOfIgnoreCase(s, "SUM(")
    ensures SumAbs(s) == s
  {
    SumAbsKeepsFree(s, []);
    assert s + [] == s;
  }

  /** No match starts inside a prefix free of `(` that is followed by `kw`. */
  lemma NoCallInPlainPrefix(s: string, n: nat)
    requires n <= |s|
    requires forall i :: 0 <= i < |s| && i < n + 3 ==> s[i] != '('
    ensures forall i :: 0 <= i < n ==> !SumCallAt(s[i..])
  {
    forall i | 0 <= i < n
      ensures !SumCallAt(s[i..])
    {
      if |s[i..]| >= 4 {
        assert s[i..][..4][3] == s[i + 3];
      }
    }
  }

  /** A prefix without `(`, followed by text whose first three characters are not `(`, is copied. */
  lemma SumAbsPlainPrefix(p: string, c: string)
    requires '(' !in p
    requires forall i :: 0 <= i < |c| && i < 3 ==> c[i] != '('
    ensures SumAbs(p + c) == p + SumAbs(c)
  {
    var s := p + c;
    forall i | 0 <= i < |s| && i < |p| + 3
      ensures s[i] != '('
    {
      if i < |p| {
        assert s[i] == p[i];
      } else {
        assert s[i] == c[i - |p|];
      }
    }
    NoCallInPlainPrefix(s, |p|);
    SumAbsSkips(p, c);
  }

  /** A word that matches "SUM" case-insensitively holds no `(`. */
  lemma SumKeywordHasNoParen(kw: string)
    requires MatchesIgnoreCase(kw, "SUM")
    ensures forall i :: 0 <= i < |kw| ==> kw[i] != '('
  {
    forall i | 0 <= i < |kw|
      ensures kw[i] != '('
    {
      assert Fold(kw[i]) == Fold("SUM"[i]);
    }
  }

  /** A match at the start: "sum(" in any case, an argument without `)`, then `)`. */
  lemma SumAbsAtCall(kw: string, arg: string, t: string)
    requires MatchesIgnoreCase(kw, "SUM")
    requires arg != [] && ')' !in arg
    ensures SumAbs(kw + "(" + arg + ")" + t) == AbsCall(arg) + SumAbs(t)
  {
    var c := kw + "(" + arg + ")" + t;
    assert c[4..] == arg + ")" + t;
    ArgLengthOf(arg, t);
    assert c[..4] == kw + "(";
    assert SumCallAt(c);
    assert c[4..4 + |arg|] == arg;
    assert c[5 + |arg|..] == t;
  }

  /**
   * One aggregate call in otherwise plain text: "sum(" in any case, an
   * argument without `)`, then `)`, becomes "SUM(ABS(" + argument + "))",
   * the text before it is kept and the rewrite goes on after it.
   */
  lemma SumAbsWrapsCall(p: string, call: string, kw: string, arg: string, t: string)
    requires '(' !in p && MatchesIgnoreCase(kw, "SUM")
    requires arg != [] && ')' !in arg && call == kw + "(" + arg + ")"
    ensures SumAbs(p + call + t) == p + AbsCall(arg) + SumAbs(t)
  {
    var c := call + t;
    assert p + call + t == p + c;
    assert c[..3] == kw;
    SumAbsAfterPlain(p, kw, c);
    SumAbsAtCall(kw, arg, t);
    assert SumAbs(p + c) == p + (AbsCall(arg) + SumAbs(t));
  }

  /** The only call in a text otherwise free of `(` is wrapped, and nothing else changes. */
  lemma SumAbsLoneCall(p: string, call: string, kw: string, arg: string, t: string)
    requires '(' !in p && '(' !in t && MatchesIgnoreCase(kw, "SUM")
    requires arg != [] && ')' !in arg && call == kw + "(" + arg + ")"
    ensures SumAbs(p + call + t) == p + AbsCall(arg) + t
  {
    SumAbsWrapsCall(p, call, kw, arg, t);
    SumAbsPlainText(t);
  }

  /** The text before a keyword matching "SUM", if free of `(`, is copied. */
  lemma SumAbsAfterPlain(p: string, kw: string, c: string)
    requires '(' !in p && MatchesIgnoreCase(kw, "SUM") && |c| >= 3 && c[..3] == kw
    ensures SumAbs(p + c) == p + SumAbs(c)
  {
    SumKeywordHasNoParen(kw);
    assert forall i :: 0 <= i < 3 ==> c[i] == c[..3][i];
    SumAbsPlainPrefix(p, c);
  }

  /** Text without any `(` is left unchanged by the rewrite. */
  lemma SumAbsPlainText(t: string)
    requires '(' !in t
    ensures SumAbs(t) == t
  {
    NoCallInPlainPrefix(t, |t|);
    assert t + [] == t;
    SumAbsSkips(t, []);
  }

  /** No match starts where one of the first four characters differs from "sum(" in every case. */
  lemma NoCallAtMismatch(s: string, k: nat)
    requires k < 4 && k < |s| && Fold(s[k]) != Fold("SUM("[k])
    ensures !SumCallAt(s)
  {
    if |s| >= 4 {
      assert s[..4][k] == s[k];
    }
  }

  /** An empty call `SUM()` at the start is not a match, and is copied. */
  lemma SumAbsEmptyCallAt(kw: string, t: string)
    requires MatchesIgnoreCase(kw, "SUM")
    ensures SumAbs(kw + "()" + t) == kw + "()" + SumAbs(t)
  {
    var c := kw + "()" + t;
    assert |kw| == 3 && c[3] == '(' && c[4] == ')';
    forall i | 0 <= i < 5
      ensures !SumCallAt(c[i..])
    {
      if i == 0 {
        assert c[0..] == c && c[4..][0] == ')';
      } else if i == 1 {
        assert c[1..][3] == ')';
        NoCallAtMismatch(c[1..], 3);
      } else if i == 2 {
        assert c[2..][1] == '(';
        NoCallAtMismatch(c[2..], 1);
      } else if i == 3 {
        assert c[3..][0] == '(';
        NoCallAtMismatch(c[3..], 0);
      } else {
        assert c[4..][0] == ')';
        NoCallAtMismatch(c[4..], 0);
      }
    }
    assert c == (kw + "()") + t;
    SumAbsSkips(kw + "()", t);
  }

  /** An empty `SUM()` is not a match: it is copied, and the rewrite goes on after it. */
  lemma SumAbsSkipsEmptyCall(p: string, kw: string, t: string)
    requires '(' !in p && MatchesIgnoreCase(kw, "SUM")
    ensures SumAbs(p + kw + "()" + t) == p + kw + "()" + SumAbs(t)
  {
    var c := kw + "()" + t;
    assert p + kw + "()" + t == p + c;
    SumAbsAfterPlain(p, kw, c);
    SumAbsEmptyCallAt(kw, t);
    Regroup2(SumAbs(p + c), p, SumAbs(c), kw, "()", SumAbs(t));
  }

  // ---------- Table renaming (app.py:125, Demo.py:293) ----------

  /** `sql.replace("table", "transactions")`: case-sensitive, also inside longer words. */
  function RenameTable(sql: string): string {
    Replace(sql, "table", "transactions")
  }

  /** The query changes exactly when it contains "table". */
  lemma RenameTableChangesIff(sql: string)
    ensures RenameTable(sql) == sql <==> !Contains(sql, "table")
  {
    ReplaceChangesIff(sql, "table", "transactions");
  }

  /** The renaming is case-sensitive: a query without a lowercase `t`, such as one saying "TABLE", is unchanged. */
  lemma RenameTableNeedsLowercase(sql: string)
    requires 't' !in sql
    ensures RenameTable(sql) == sql
  {
    if Contains(sql, "table") {
      ContainsHead(sql, "table");
    }
    RenameTableChangesIff(sql);
  }

  /**
   * "table" is renamed also at the end of a longer word: after a prefix
   * without `t`, the first "table" becomes "transactions".
   */
  lemma RenameTableInsideWord(prefix: string, rest: string)
    requires 't' !in prefix
    ensures RenameTable(prefix + "table" + rest) == prefix + "transactions" + RenameTable(rest)
  {
    assert prefix + "table" + rest == prefix + ("table" + rest);
    ReplaceSkipsHead(prefix, "table" + rest, "table", "transactions");
    ReplaceAtHead("table", rest, "transactions");
    assert prefix + ("transactions" + RenameTable(rest)) == prefix + "transactions" + RenameTable(rest);
  }

  /** `x.strip().upper() == "NULL"`: the sentinel meaning "cannot be answered". */
  predicate IsNullSentinel(s: string) {
    Upper(Strip(s)) == "NULL"
  }

  /**
   * The sentinel is recognised in any letter case and with any whitespace
   * around it: a reply of " null\n" means "cannot be answered" as "NULL" does.
   */
  lemma NullSentinelPadded(pre: string, w: string, post: string)
    requires forall i :: 0 <= i < |pre| ==> IsSpace(pre[i])
    requires forall i :: 0 <= i < |post| ==> IsSpace(post[i])
    requires Upper(w) == "NULL"
    ensures IsNullSentinel(pre + w + post)
  {
    assert w != [] && !IsSpace(w[0]) && !IsSpace(w[|w| - 1]) by {
      assert |w| == 4 && Upper(w)[0] == UpperChar(w[0]) && Upper(w)[3] == UpperChar(w[3]);
      assert "NULL"[0] == 'N' && "NULL"[3] == 'L';
    }
    StripSurrounded(pre, w, post);
  }

  /**
   * The sentinel is exactly the four letters N, U, L, L, each in either
   * case, once the surrounding whitespace is stripped: a query that merely
   * mentions NULL among other text is not it.
   */
  lemma NullSentinelShape(s: string)
    ensures IsNullSentinel(s) <==>
      (|Strip(s)| == 4 && Strip(s)[0] in "nN" && Strip(s)[1] in "uU" && Strip(s)[2] in "lL" && Strip(s)[3] in "lL")
  {
    var t := Strip(s);
    if |t| == 4 {
      assert Upper(t)[0] == UpperChar(t[0]) && Upper(t)[1] == UpperChar(t[1]);
      assert Upper(t)[2] == UpperChar(t[2]) && Upper(t)[3] == UpperChar(t[3]);
      if t[0] in "nN" && t[1] in "uU" && t[2] in "lL" && t[3] in "lL" {
        assert Upper(t) == "NULL";
      }
    }
  }

  /** The "View SQL Changes" block is shown (Demo.py:322, pages/Use_Your_Own_Dataset.py:250). */
  predicate ShowsSqlChanges(original: string, refined: string) {
    Strip(original) != Strip(refined) && !IsNullSentinel(refined)
  }

  /** The refined query is executed (Demo.py:342-344, pages/Use_Your_Own_Dataset.py:270-272). */
  predicate RunsRefined(refined: string) {
    !IsNullSentinel(refined)
  }

  /** A shown diff is always followed by running the refined query, and a sentinel is neither shown nor run. */
  lemma DisplayGates(original: string, refined: string)
    ensures ShowsSqlChanges(original, refined) ==> RunsRefined(refined)
    ensures IsNullSentinel(refined) ==> !ShowsSqlChanges(original, refined) && !RunsRefined(refined)
    ensures !ShowsSqlChanges(refined, refined)
  {
  }
}

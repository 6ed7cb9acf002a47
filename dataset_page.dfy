/**
 * The "use your own dataset" page (pages/Use_Your_Own_Dataset.py): the
 * column names of an uploaded CSV file are sanitised, the generated query
 * has the word "table" replaced by the upload's table name, and the first
 * result, or an empty frame when the query fails, is reflected on.
 */
module DatasetPage {
  import opened Wrappers
  import opened Text
  import opened Frames
  import opened Service
  import opened SqlText
  import opened ReflectionEngine

  /** The table the upload is written to. */
  const UploadTable := "user_upload"

  // ---------- Column names (pages/Use_Your_Own_Dataset.py:86) ----------

  /** Length of the run of non-word characters at the start of `s`. */
  function NonWordRun(s: string): (n: nat)
    ensures n <= |s|
    ensures forall i :: 0 <= i < n ==> !IsWordChar(s[i])
    ensures n < |s| ==> IsWordChar(s[n])
  {
    if s == [] || IsWordChar(s[0]) then 0 else 1 + NonWordRun(s[1..])
  }

  /** `re.sub(r"\W+", "_", s)`: each maximal run of non-word characters becomes one `_`. */
  function CollapseNonWord(s: string): string
    decreases |s|
  {
    if s == [] then []
    else if IsWordChar(s[0]) then [s[0]] + CollapseNonWord(s[1..])
    else "_" + CollapseNonWord(s[NonWordRun(s)..])
  }

  /** Collapsing leaves only word characters and never lengthens the text. */
  lemma {:induction false} CollapseShape(s: string)
    ensures forall i :: 0 <= i < |CollapseNonWord(s)| ==> IsWordChar(CollapseNonWord(s)[i])
    ensures |CollapseNonWord(s)| <= |s|
    decreases |s|
  {
    if s != [] {
      if IsWordChar(s[0]) {
        CollapseShape(s[1..]);
      } else {
        CollapseShape(s[NonWordRun(s)..]);
      }
    }
  }

  /** The name `load_csv` gives a column: stripped, then with its non-word runs collapsed. */
  function SanitizeColumn(name: string): string {
    CollapseNonWord(Strip(name))
  }

  /** A sanitised name holds only word characters and is never longer than the original. */
  lemma SanitizeColumnShape(name: string)
    ensures forall i :: 0 <= i < |SanitizeColumn(name)| ==> IsWordChar(SanitizeColumn(name)[i])
    ensures |SanitizeColumn(name)| <= |name|
  {
    CollapseShape(Strip(name));
  }

  /** Text made of word characters has no run to collapse. */
  lemma {:induction false} CollapseWordsOnly(s: string)
    requires forall i :: 0 <= i < |s| ==> IsWordChar(s[i])
    ensures CollapseNonWord(s) == s
    decreases |s|
  {
    if s != [] {
      CollapseWordsOnly(s[1..]);
      assert s == [s[0]] + s[1..];
    }
  }

  /** Sanitising a sanitised name changes nothing. */
  lemma SanitizeColumnIdempotent(name: string)
    ensures SanitizeColumn(SanitizeColumn(name)) == SanitizeColumn(name)
  {
    var once := SanitizeColumn(name);
    CollapseShape(Strip(name));
    assert once == [] || (!IsSpace(once[0]) && !IsSpace(once[|once| - 1])) by {
      if once != [] {
        assert IsWordChar(once[0]) && IsWordChar(once[|once| - 1]);
      }
    }
    StripTrimmed(once);
    CollapseWordsOnly(once);
  }

  /** A run of non-word characters followed by a word character, or by nothing, becomes a single `_`. */
  lemma CollapseRun(run: string, rest: string)
    requires run != [] && forall i :: 0 <= i < |run| ==> !IsWordChar(run[i])
    requires rest == [] || IsWordChar(rest[0])
    ensures CollapseNonWord(run + rest) == "_" + CollapseNonWord(rest)
  {
    NonWordRunOf(run, rest);
    assert (run + rest)[|run|..] == rest;
  }

  lemma {:induction false} NonWordRunOf(run: string, rest: string)
    requires forall i :: 0 <= i < |run| ==> !IsWordChar(run[i])
    requires rest == [] || IsWordChar(rest[0])
    ensures NonWordRun(run + rest) == |run|
    decreases |run|
  {
    if run != [] {
      NonWordRunOf(run[1..], rest);
      assert (run + rest)[1..] == run[1..] + rest;
    } else {
      assert run + rest == rest;
    }
  }

  /** A word character splits the collapsing: each side is collapsed on its own. */
  lemma {:induction false} CollapseSplitsAtWord(a: string, c: char, b: string)
    requires IsWordChar(c)
    ensures CollapseNonWord(a + [c] + b) == CollapseNonWord(a) + [c] + CollapseNonWord(b)
    decreases |a|
  {
    if a == [] {
      assert a + [c] + b == [c] + b && ([c] + b)[1..] == b;
    } else if IsWordChar(a[0]) {
      CollapseSplitsAtWord(a[1..], c, b);
      CollapseSplitKeepsWordChar(a, c, b);
    } else {
      CollapseSplitsAtWord(a[NonWordRun(a)..], c, b);
      CollapseSplitAtRun(a, c, b);
    }
  }

  /** `CollapseSplitsAtWord` when `a` starts with a word character: it is kept on both sides. */
  lemma CollapseSplitKeepsWordChar(a: string, c: char, b: string)
    requires a != [] && IsWordChar(a[0])
    requires CollapseNonWord(a[1..] + [c] + b) == CollapseNonWord(a[1..]) + [c] + CollapseNonWord(b)
    ensures CollapseNonWord(a + [c] + b) == CollapseNonWord(a) + [c] + CollapseNonWord(b)
  {
    var s := a + [c] + b;
    assert s[0] == a[0] && s[1..] == a[1..] + [c] + b;
    CollapseKeepsWordChar(s);
    CollapseKeepsWordChar(a);
    ConsRegroup(a[0], CollapseNonWord(s), CollapseNonWord(a[1..] + [c] + b),
                CollapseNonWord(a), CollapseNonWord(a[1..]), [c], CollapseNonWord(b));
  }

  /** A leading word character is kept. */
  lemma CollapseKeepsWordChar(s: string)
    requires s != [] && IsWordChar(s[0])
    ensures CollapseNonWord(s) == [s[0]] + CollapseNonWord(s[1..])
  {
  }

  /** `CollapseSplitsAtWord` when `a` starts with a non-word run: it becomes one `_` on both sides. */
  lemma CollapseSplitAtRun(a: string, c: char, b: string)
    requires a != [] && !IsWordChar(a[0]) && IsWordChar(c)
    requires CollapseNonWord(a[NonWordRun(a)..] + [c] + b)
          == CollapseNonWord(a[NonWordRun(a)..]) + [c] + CollapseNonWord(b)
    ensures CollapseNonWord(a + [c] + b) == CollapseNonWord(a) + [c] + CollapseNonWord(b)
  {
    var n := NonWordRun(a);
    CollapseRunBeforeWord(a, c, b);
    ConsRegroup('_', CollapseNonWord(a + [c] + b), CollapseNonWord(a[n..] + [c] + b),
                CollapseNonWord(a), CollapseNonWord(a[n..]), [c], CollapseNonWord(b));
  }

  /** A leading run of non-word characters collapses the same whatever follows a word character. */
  lemma CollapseRunBeforeWord(a: string, c: char, b: string)
    requires a != [] && !IsWordChar(a[0]) && IsWordChar(c)
    ensures var n := NonWordRun(a);
      && CollapseNonWord(a + [c] + b) == "_" + CollapseNonWord(a[n..] + [c] + b)
      && CollapseNonWord(a) == "_" + CollapseNonWord(a[n..])
  {
    var s := a + [c] + b;
    var n := NonWordRun(a);
    assert NonWordRun(s) == n by {
      NonWordRunPrefix(a, [c] + b);
      assert s == a + ([c] + b);
    }
    assert s[n..] == a[n..] + [c] + b;
  }

  /** The non-word run at the start of `a` is the same in `a + t` when `t` starts with a word character. */
  lemma {:induction false} NonWordRunPrefix(a: string, t: string)
    requires t != [] && IsWordChar(t[0])
    ensures NonWordRun(a + t) == NonWordRun(a)
    decreases |a|
  {
    if a == [] {
      assert a + t == t;
    } else if !IsWordChar(a[0]) {
      NonWordRunPrefix(a[1..], t);
      assert (a + t)[1..] == a[1..] + t;
    }
  }

  // ---------- Table name (pages/Use_Your_Own_Dataset.py:222) ----------

  const TableWord := "table"

  /**
   * `\btable\b` matches at the start of `s` under `re.IGNORECASE`: the
   * previous character is not a word character, the next five read "table"
   * in any case, and no word character follows them.
   */
  predicate TableWordAt(s: string, afterWord: bool) {
    !afterWord && |s| >= 5 && MatchesIgnoreCase(s[..5], TableWord) && (|s| == 5 || !IsWordChar(s[5]))
  }

  /** The substitution over `s`, when the character before it is a word character exactly when `afterWord`. */
  function SubTableFrom(s: string, name: string, afterWord: bool): string
    decreases |s|
  {
    if s == [] then []
    else if TableWordAt(s, afterWord) then name + SubTableFrom(s[5..], name, true)
    else [s[0]] + SubTableFrom(s[1..], name, IsWordChar(s[0]))
  }

  /** `re.sub(r"\btable\b", name, s, flags=re.IGNORECASE)`. */
  function SubstituteTable(s: string, name: string): string {
    SubTableFrom(s, name, false)
  }

  /** A character that reads as a letter of "table" in any case is a word character. */
  lemma TableLetterIsWordChar(c: char, i: nat)
    requires i < |TableWord| && Fold(c) == Fold(TableWord[i])
    ensures IsWordChar(c)
  {
  }

  /** After the first character, a word never offers a word boundary. */
  lemma {:induction false} SubTableInsideWord(w: string, name: string)
    requires forall i :: 0 <= i < |w| ==> IsWordChar(w[i])
    ensures SubTableFrom(w, name, true) == w
    decreases |w|
  {
    if w != [] {
      SubTableInsideWord(w[1..], name);
      assert w == [w[0]] + w[1..];
    }
  }

  /**
   * A word on its own is replaced by the table name exactly when it reads
   * "table" in any case: "tables" and "mytable" stay as they are.
   */
  lemma SubstituteTableWord(w: string, name: string)
    requires forall i :: 0 <= i < |w| ==> IsWordChar(w[i])
    ensures SubstituteTable(w, name) == if MatchesIgnoreCase(w, TableWord) then name else w
  {
    if w != [] {
      if TableWordAt(w, false) {
        assert |w| == 5;
        assert w[..5] == w;
        assert w[5..] == [];
        assert SubTableFrom(w[5..], name, true) == [];
        assert name + [] == name;
      } else {
        SubTableInsideWord(w[1..], name);
        assert w == [w[0]] + w[1..];
        assert !MatchesIgnoreCase(w, TableWord) by {
          if |w| == 5 {
            assert w[..5] == w;
          }
        }
      }
    }
  }

  /** A non-word character ends any occurrence before it and starts a boundary after it. */
  lemma TableWordAtSplit(a: string, c: char, b: string, afterWord: bool)
    requires a != [] && !IsWordChar(c)
    ensures TableWordAt(a + [c] + b, afterWord) <==> TableWordAt(a, afterWord)
  {
    var s := a + [c] + b;
    if |a| < 5 && |s| >= 5 && MatchesIgnoreCase(s[..5], TableWord) {
      assert s[..5][|a|] == c;
      TableLetterIsWordChar(c, |a|);
    }
    if |a| >= 5 {
      assert s[..5] == a[..5];
      assert |a| > 5 ==> s[5] == a[5];
      assert |a| == 5 ==> s[5] == c;
    }
  }

  /**
   * The substitution works word by word: a non-word character splits the
   * text into parts that are substituted on their own.
   */
  lemma {:induction false} SubTableSplits(a: string, c: char, b: string, name: string, afterWord: bool)
    requires !IsWordChar(c)
    ensures SubTableFrom(a + [c] + b, name, afterWord)
         == SubTableFrom(a, name, afterWord) + ([c] + SubTableFrom(b, name, false))
    decreases |a|
  {
    if a == [] {
      SubTableAtNonWord(c, b, name, afterWord);
    } else {
      SubTableStep(a, c, b, name, afterWord);
      var right := [c] + SubTableFrom(b, name, false);
      if TableWordAt(a, afterWord) {
        SubTableSplits(a[5..], c, b, name, true);
        PrefixRegroup(SubTableFrom(a + [c] + b, name, afterWord), name, SubTableFrom(a[5..] + [c] + b, name, true),
                      SubTableFrom(a, name, afterWord), SubTableFrom(a[5..], name, true), right);
      } else {
        SubTableSplits(a[1..], c, b, name, IsWordChar(a[0]));
        PrefixRegroup(SubTableFrom(a + [c] + b, name, afterWord), [a[0]],
                      SubTableFrom(a[1..] + [c] + b, name, IsWordChar(a[0])),
                      SubTableFrom(a, name, afterWord), SubTableFrom(a[1..], name, IsWordChar(a[0])), right);
      }
    }
  }

  /** A non-word character is copied and leaves a word boundary after it. */
  lemma SubTableAtNonWord(c: char, b: string, name: string, afterWord: bool)
    requires !IsWordChar(c)
    ensures SubTableFrom([c] + b, name, afterWord) == [c] + SubTableFrom(b, name, false)
  {
    var s := [c] + b;
    assert s[1..] == b;
    assert !TableWordAt(s, afterWord) by {
      if |s| >= 5 && MatchesIgnoreCase(s[..5], TableWord) {
        assert s[..5][0] == c;
        TableLetterIsWordChar(c, 0);
      }
    }
  }

  /** One step of the substitution on `a + [c] + b` takes the same branch as on `a`. */
  lemma SubTableStep(a: string, c: char, b: string, name: string, afterWord: bool)
    requires a != [] && !IsWordChar(c)
    ensures var s := a + [c] + b;
      && (TableWordAt(a, afterWord) ==>
            |a| >= 5 && SubTableFrom(s, name, afterWord) == name + SubTableFrom(a[5..] + [c] + b, name, true))
      && (!TableWordAt(a, afterWord) ==>
            SubTableFrom(s, name, afterWord) == [a[0]] + SubTableFrom(a[1..] + [c] + b, name, IsWordChar(a[0])))
  {
    var s := a + [c] + b;
    TableWordAtSplit(a, c, b, afterWord);
    if TableWordAt(a, afterWord) {
      assert s[5..] == a[5..] + [c] + b;
    } else {
      assert s[1..] == a[1..] + [c] + b;
    }
  }

  /** The first query the page runs: the generated query with the word "table" replaced by the upload's table. */
  function FirstQuery(content: string): string {
    SubstituteTable(CleanReply(content), UploadTable)
  }

  // ---------- Reflection on the first result (pages/Use_Your_Own_Dataset.py:230-236) ----------

  /** The frame reflected on: the first result, or an empty frame when the query raised. */
  function FirstFrame(result: Option<Frame>): Frame {
    match result
    case Some(df) => df
    case None => EmptyFrame
  }

  /**
   * When the first query fails, reflection still runs, on an empty frame:
   * it cannot raise the "region" error, and a verdict reports only the
   * empty-result issue.
   */
  lemma FailedQueryReflectsEmpty(question: string, sql: string, result: Option<Frame>, schema: string,
                                 semanticReply: Reply, parse: string -> Parse, explanationReply: Reply)
    requires result.None?
    ensures var out := ReflectOutcome(question, sql, FirstFrame(result), schema, semanticReply, parse, explanationReply);
      && out != Raised(RegionNotUnique)
      && (out.Done? ==> out.verdict.issues == [EmptyResult])
  {
    assert IsEmpty(FirstFrame(result));
    ReflectEmptyResult(question, sql, FirstFrame(result), schema, semanticReply, parse, explanationReply);
  }
}

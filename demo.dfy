/**
 * The Apple Store demo page (Demo.py): the generated query is cleaned and,
 * for questions about revenue or totals, has `ABS` taken off `revenue` so
 * that the first result shows the negative totals the engine then fixes;
 * "table" is renamed to "transactions".
 */
module Demo {
  import opened Text
  import opened SqlText

  const SumAbsRevenue := "SUM(ABS(revenue))"
  const SumRevenue := "SUM(revenue)"
  const AbsRevenue := "ABS(revenue)"
  const Revenue := "revenue"

  /** The two case-insensitive substitutions that take `ABS` off `revenue`. */
  function StripAbs(sql: string): string {
    SubIgnoreCase(SubIgnoreCase(sql, SumAbsRevenue, SumRevenue), AbsRevenue, Revenue)
  }

  /** The question asks about revenue or totals, in any case. */
  predicate AsksForTotals(question: string) {
    Contains(Lower(question), "revenue") || Contains(Lower(question), "total")
  }

  /** `generate_sql` once the model has answered with `content`. */
  function GenerateSql(question: string, content: string): string {
    var sql := CleanReply(content);
    if AsksForTotals(question) then StripAbs(sql) else sql
  }

  /** The first query the page runs: the generated query with "table" renamed. */
  function FirstQuery(question: string, content: string): string {
    RenameTable(GenerateSql(question, content))
  }

  /** The generated query is only cleaned unless the question asks about revenue or totals. */
  lemma GenerateSqlGate(question: string, content: string)
    ensures !AsksForTotals(question) ==> GenerateSql(question, content) == CleanReply(content)
    ensures AsksForTotals(question) ==> GenerateSql(question, content) == StripAbs(CleanReply(content))
  {
  }

  /** "SUM(" and "ABS(", the openings the rewrite and the post-processing look for. */
  const SumOpen := "SUM("
  const AbsOpen := "ABS("

  /** A piece of query with no case-insensitive "SUM(" or "ABS(" in it. */
  predicate PlainPart(s: string) {
    FreeOfIgnoreCase(s, SumOpen) && FreeOfIgnoreCase(s, AbsOpen)
  }

  /** `sep.join(parts)`. */
  function JoinWith(parts: seq<string>, sep: string): string
    decreases |parts|
  {
    if parts == [] then []
    else if |parts| == 1 then parts[0]
    else parts[0] + sep + JoinWith(parts[1..], sep)
  }

  /** No "SUM(" runs across into text that starts with `S`. */
  lemma SumOpenNotAcross(v: string)
    requires v != [] && v[0] == 'S'
    ensures NoMatchAcross(v, SumOpen)
  {
    forall m | 0 < m < |SumOpen|
      ensures !StartsWithIgnoreCase(v, SumOpen[m..])
    {
      if |SumOpen[m..]| <= |v| {
        assert v[..|SumOpen[m..]|][0] == 'S' && SumOpen[m..][0] == SumOpen[m];
      }
    }
  }

  /** No "ABS(" runs across into text that starts with `SU`. */
  lemma AbsOpenNotAcross(v: string)
    requires |v| >= 2 && v[0] == 'S' && v[1] == 'U'
    ensures NoMatchAcross(v, AbsOpen)
  {
    forall m | 0 < m < |AbsOpen|
      ensures !StartsWithIgnoreCase(v, AbsOpen[m..])
    {
      if |AbsOpen[m..]| <= |v| {
        var k := if m == 2 then 1 else 0;
        assert v[..|AbsOpen[m..]|][k] == v[k] && AbsOpen[m..][k] == AbsOpen[m + k];
      }
    }
  }

  /** The engine wraps a `SUM(revenue)` at the start and rewrites the rest in turn. */
  lemma SumAbsAtSumRevenue(rest: string)
    ensures SumAbs(SumRevenue + rest) == SumAbsRevenue + SumAbs(rest)
  {
    assert SumRevenue == "SUM" + "(" + Revenue + ")" && MatchesIgnoreCase("SUM", "SUM") && ')' !in Revenue by {
      assert Revenue == "revenue";
    }
    SumAbsAtCall("SUM", Revenue, rest);
    assert AbsCall(Revenue) == SumAbsRevenue;
  }

  /**
   * The engine's rewrite of a `SUM(revenue)` after a piece without "SUM(":
   * the piece is copied, the call wrapped, and the rest rewritten in turn.
   */
  lemma SumAbsOfSumRevenue(p: string, rest: string)
    requires FreeOfIgnoreCase(p, SumOpen)
    ensures SumAbs(p + SumRevenue + rest) == p + SumAbsRevenue + SumAbs(rest)
  {
    var u := SumRevenue + rest;
    assert p + SumRevenue + rest == p + u;
    assert u[0] == 'S';
    SumOpenNotAcross(u);
    SumAbsKeepsFree(p, u);
    SumAbsAtSumRevenue(rest);
  }

  /**
   * The first substitution turns the engine's `SUM(ABS(revenue))` after a
   * piece without "SUM(" back into `SUM(revenue)`, and goes on with the rest.
   */
  lemma StripSumAbs(p: string, rest: string)
    requires FreeOfIgnoreCase(p, SumOpen)
    ensures SubIgnoreCase(p + SumAbsRevenue + rest, SumAbsRevenue, SumRevenue)
      == p + SumRevenue + SubIgnoreCase(rest, SumAbsRevenue, SumRevenue)
  {
    var u := SumAbsRevenue + rest;
    assert p + SumAbsRevenue + rest == p + u;
    SumOpenNotAcross(u);
    assert SumAbsRevenue[..|SumOpen|] == SumOpen;
    SubIgnoreCaseKeepsFree(p, u, SumAbsRevenue, SumOpen, SumRevenue);
    SubIgnoreCaseAtHead(SumAbsRevenue, rest, SumRevenue);
  }

  /** No character of `SUM(revenue)` folds to the `a` that starts `ABS(revenue)`. */
  lemma SumRevenueHasNoA()
    ensures forall i :: 0 <= i < |SumRevenue| ==> Fold(SumRevenue[i]) != Fold(AbsRevenue[0])
  {
    assert Fold(AbsRevenue[0]) == 'a';
  }

  /** No "ABS(" runs across into text that starts with `SUM(revenue)`, the pattern `ABS(revenue)` begins with "ABS(". */
  lemma AbsOpenNotAcrossSum(rest: string)
    ensures NoMatchAcross(SumRevenue + rest, AbsOpen)
    ensures AbsRevenue[..|AbsOpen|] == AbsOpen
  {
    var u := SumRevenue + rest;
    assert u[0] == 'S' && u[1] == 'U';
    AbsOpenNotAcross(u);
  }

  /** The second substitution passes a `SUM(revenue)` at the start and goes on with the rest. */
  lemma StripAbsPassesSumRevenue(rest: string)
    ensures SubIgnoreCase(SumRevenue + rest, AbsRevenue, Revenue) == SumRevenue + SubIgnoreCase(rest, AbsRevenue, Revenue)
  {
    SumRevenueHasNoA();
    SubIgnoreCaseSkipsHead(SumRevenue, rest, AbsRevenue, Revenue);
  }

  /**
   * The second substitution passes a piece without "ABS(" and the
   * `SUM(revenue)` after it, and goes on with the rest.
   */
  lemma StripAbsKeepsSum(p: string, rest: string)
    requires FreeOfIgnoreCase(p, AbsOpen)
    ensures SubIgnoreCase(p + SumRevenue + rest, AbsRevenue, Revenue)
      == p + SumRevenue + SubIgnoreCase(rest, AbsRevenue, Revenue)
  {
    AbsOpenNotAcrossSum(rest);
    StripAbsPassesSumRevenue(rest);
    SubIgnoreCaseKeepsFreeThen(p, SumRevenue, rest, AbsRevenue, AbsOpen, Revenue);
  }

  /**
   * The post-processing undoes the engine's rewrite: a query with one
   * `SUM(revenue)` between pieces without "SUM(" or "ABS(" comes back
   * from `SumAbs` and `StripAbs` as it was.
   */
  lemma StripAbsUndoesSumAbs(p: string, t: string)
    requires PlainPart(p) && PlainPart(t)
    ensures StripAbs(SumAbs(p + SumRevenue + t)) == p + SumRevenue + t
  {
    SumAbsOfSumRevenue(p, t);
    SumAbsFree(t);
    StripSumAbs(p, t);
    assert SumAbsRevenue[..|SumOpen|] == SumOpen && AbsRevenue[..|AbsOpen|] == AbsOpen;
    SubIgnoreCaseFree(t, SumAbsRevenue, SumOpen, SumRevenue);
    StripAbsKeepsSum(p, t);
    SubIgnoreCaseFree(t, AbsRevenue, AbsOpen, Revenue);
  }

  /** The engine wraps every `SUM(revenue)` separating pieces without "SUM(", and nothing else. */
  lemma {:induction false} SumAbsJoin(parts: seq<string>)
    requires forall i :: 0 <= i < |parts| ==> PlainPart(parts[i])
    ensures SumAbs(JoinWith(parts, SumRevenue)) == JoinWith(parts, SumAbsRevenue)
    decreases |parts|
  {
    if |parts| == 1 {
      SumAbsFree(parts[0]);
    } else if |parts| > 1 {
      assert forall i :: 0 <= i < |parts| - 1 ==> parts[1..][i] == parts[i + 1];
      SumAbsJoin(parts[1..]);
      SumAbsOfSumRevenue(parts[0], JoinWith(parts[1..], SumRevenue));
    }
  }

  /** The first substitution turns every separating `SUM(ABS(revenue))` back into `SUM(revenue)`. */
  lemma {:induction false} StripSumAbsJoin(parts: seq<string>)
    requires forall i :: 0 <= i < |parts| ==> PlainPart(parts[i])
    ensures SubIgnoreCase(JoinWith(parts, SumAbsRevenue), SumAbsRevenue, SumRevenue) == JoinWith(parts, SumRevenue)
    decreases |parts|
  {
    if |parts| == 1 {
      assert SumAbsRevenue[..|SumOpen|] == SumOpen;
      SubIgnoreCaseFree(parts[0], SumAbsRevenue, SumOpen, SumRevenue);
    } else if |parts| > 1 {
      assert forall i :: 0 <= i < |parts| - 1 ==> parts[1..][i] == parts[i + 1];
      StripSumAbsJoin(parts[1..]);
      StripSumAbs(parts[0], JoinWith(parts[1..], SumAbsRevenue));
    }
  }

  /** The second substitution leaves pieces without "ABS(" joined by `SUM(revenue)` as they are. */
  lemma {:induction false} StripAbsKeepsSumJoin(parts: seq<string>)
    requires forall i :: 0 <= i < |parts| ==> PlainPart(parts[i])
    ensures SubIgnoreCase(JoinWith(parts, SumRevenue), AbsRevenue, Revenue) == JoinWith(parts, SumRevenue)
    decreases |parts|
  {
    if |parts| == 1 {
      assert AbsRevenue[..|AbsOpen|] == AbsOpen;
      SubIgnoreCaseFree(parts[0], AbsRevenue, AbsOpen, Revenue);
    } else if |parts| > 1 {
      assert forall i :: 0 <= i < |parts| - 1 ==> parts[1..][i] == parts[i + 1];
      StripAbsKeepsSumJoin(parts[1..]);
      StripAbsKeepsSum(parts[0], JoinWith(parts[1..], SumRevenue));
    }
  }

  /**
   * The post-processing undoes the engine's rewrite for any number of
   * `SUM(revenue)` calls between pieces without "SUM(" or "ABS(".
   */
  lemma StripAbsUndoesSumAbsAll(parts: seq<string>)
    requires forall i :: 0 <= i < |parts| ==> PlainPart(parts[i])
    ensures StripAbs(SumAbs(JoinWith(parts, SumRevenue))) == JoinWith(parts, SumRevenue)
  {
    SumAbsJoin(parts);
    StripSumAbsJoin(parts);
    StripAbsKeepsSumJoin(parts);
  }
}

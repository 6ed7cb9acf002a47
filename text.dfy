/**
 * The Python `str` operations the QueryMind scripts rely on, over `string`
 * (one `char` per Unicode code point, as in a Python str): `strip()`,
 * `lower()`/`upper()`, the `in` operator, `replace`, slicing, the literal
 * case-insensitive matching of `re.IGNORECASE`, and `repr` of a str or a list
 * of str (what an f-string prints for a list).
 */
module Text {

  /** `c.isspace()`: the characters `str.strip()` removes. */
  predicate IsSpace(c: char) {
    var n := c as int;
    (9 <= n <= 13) || (28 <= n <= 32) || n == 0x85 || n == 0xA0 || n == 0x1680
    || (0x2000 <= n <= 0x200A) || n == 0x2028 || n == 0x2029 || n == 0x202F
    || n == 0x205F || n == 0x3000
  }

  /** Drops the leading whitespace. */
  function TrimStart(s: string): (r: string)
    ensures |r| <= |s| && r == s[|s| - |r|..]
    ensures r == [] || !IsSpace(r[0])
    ensures forall i :: 0 <= i < |s| - |r| ==> IsSpace(s[i])
  {
    if s != [] && IsSpace(s[0]) then TrimStart(s[1..]) else s
  }

  /** Drops the trailing whitespace. */
  function TrimEnd(s: string): (r: string)
    ensures |r| <= |s| && r == s[..|r|]
    ensures r == [] || !IsSpace(r[|r| - 1])
    ensures forall i :: |r| <= i < |s| ==> IsSpace(s[i])
  {
    if s != [] && IsSpace(s[|s| - 1]) then TrimEnd(s[..|s| - 1]) else s
  }

  /** `s.strip()`: the slice of `s` between its leading and trailing whitespace. */
  function Strip(s: string): (r: string)
    ensures |r| <= |s|
    ensures r == [] || (!IsSpace(r[0]) && !IsSpace(r[|r| - 1]))
  {
    TrimEnd(TrimStart(s))
  }

  /** `Strip` returns a contiguous slice of its argument. */
  lemma StripIsSlice(s: string) returns (lo: nat)
    ensures lo + |Strip(s)| <= |s| && Strip(s) == s[lo..lo + |Strip(s)|]
  {
    var t := TrimStart(s);
    lo := |s| - |t|;
    assert t == s[lo..];
    assert Strip(s) == t[..|Strip(s)|];
  }

  /** Text that neither starts nor ends with whitespace is left alone by `Strip`. */
  lemma StripTrimmed(s: string)
    requires s == [] || (!IsSpace(s[0]) && !IsSpace(s[|s| - 1]))
    ensures Strip(s) == s
  {
  }

  /** Stripping twice strips nothing more. */
  lemma StripIdempotent(s: string)
    ensures Strip(Strip(s)) == Strip(s)
  {
    StripTrimmed(Strip(s));
  }

  /** Whitespace around a trimmed text is exactly what `Strip` removes. */
  lemma {:induction false} StripSurrounded(pre: string, w: string, post: string)
    requires forall i :: 0 <= i < |pre| ==> IsSpace(pre[i])
    requires forall i :: 0 <= i < |post| ==> IsSpace(post[i])
    requires w != [] && !IsSpace(w[0]) && !IsSpace(w[|w| - 1])
    ensures Strip(pre + w + post) == w
  {
    TrimStartSpaces(pre, w + post);
    assert pre + w + post == pre + (w + post);
    TrimEndSpaces(w, post);
  }

  lemma {:induction false} TrimStartSpaces(pre: string, s: string)
    requires forall i :: 0 <= i < |pre| ==> IsSpace(pre[i])
    requires s != [] && !IsSpace(s[0])
    ensures TrimStart(pre + s) == s
  {
    if pre != [] {
      assert (pre + s)[1..] == pre[1..] + s;
      TrimStartSpaces(pre[1..], s);
    }
  }

  lemma {:induction false} TrimEndSpaces(s: string, post: string)
    requires forall i :: 0 <= i < |post| ==> IsSpace(post[i])
    requires s != [] && !IsSpace(s[|s| - 1])
    ensures TrimEnd(s + post) == s
  {
    if post != [] {
      var q := post[..|post| - 1];
      assert (s + post)[..|s + post| - 1] == s + q;
      TrimEndSpaces(s, q);
    } else {
      assert s + post == s;
    }
  }

  function LowerChar(c: char): char {
    if 'A' <= c <= 'Z' then (c as int + 32) as char else c
  }

  function UpperChar(c: char): char {
    if 'a' <= c <= 'z' then (c as int - 32) as char else c
  }

  /** `s.lower()`, on the ASCII letters. */
  function Lower(s: string): (r: string)
    ensures |r| == |s|
  {
    seq(|s|, i requires 0 <= i < |s| => LowerChar(s[i]))
  }

  /** `s.upper()`, on the ASCII letters. */
  function Upper(s: string): (r: string)
    ensures |r| == |s|
  {
    seq(|s|, i requires 0 <= i < |s| => UpperChar(s[i]))
  }

  lemma LowerConcat(a: string, b: string)
    ensures Lower(a + b) == Lower(a) + Lower(b)
  {
    assert forall i :: 0 <= i < |a + b| ==> Lower(a + b)[i] == (Lower(a) + Lower(b))[i];
  }

  /** `p in s` for two str: `p` occurs in `s` at some position. */
  predicate Contains(s: string, p: string)
    decreases |s|
  {
    if |s| < |p| then false
    else if s[..|p|] == p then true
    else Contains(s[1..], p)
  }

  /** `Contains` agrees with the position-wise reading of `p in s`. */
  lemma {:induction false} ContainsAt(s: string, p: string, i: nat)
    requires i + |p| <= |s| && s[i..i + |p|] == p
    ensures Contains(s, p)
  {
    if s[..|p|] != p {
      assert i > 0;
      assert s[1..][i - 1..i - 1 + |p|] == s[i..i + |p|];
      ContainsAt(s[1..], p, i - 1);
    }
  }

  /** A non-empty pattern occurring in `s` starts with a character of `s`. */
  lemma {:induction false} ContainsHead(s: string, p: string)
    requires p != [] && Contains(s, p)
    ensures p[0] in s
  {
    if s[..|p|] == p {
      assert s[0] == p[0];
    } else {
      ContainsHead(s[1..], p);
    }
  }

  /** An occurrence inside a slice is an occurrence in the whole. */
  lemma {:induction false} ContainsInSlice(s: string, p: string, lo: nat, hi: nat)
    requires lo <= hi <= |s| && Contains(s[lo..hi], p)
    ensures Contains(s, p)
    decreases hi - lo
  {
    var t := s[lo..hi];
    if t[..|p|] == p {
      assert s[lo..lo + |p|] == p;
      ContainsAt(s, p, lo);
    } else {
      assert t[1..] == s[lo + 1..hi];
      ContainsInSlice(s, p, lo + 1, hi);
    }
  }

  /** `s.replace(target, rep)`: every non-overlapping occurrence, scanned left to right. */
  function Replace(s: string, target: string, rep: string): string
    requires target != []
    decreases |s|
  {
    if |s| < |target| then s
    else if s[..|target|] == target then rep + Replace(s[|target|..], target, rep)
    else [s[0]] + Replace(s[1..], target, rep)
  }

  /** A text made of `p`'s first character, then `p`'s rest, then `z`, is `p + z`. */
  lemma HeadThenRest<T>(p: seq<T>, x: seq<T>, y: seq<T>, z: seq<T>)
    requires p != [] && x == [p[0]] + y && y == p[1..] + z
    ensures x == p + z
  {
    assert [p[0]] + p[1..] == p;
  }

  /** Regrouping `p + (a + b + z)`. */
  lemma Regroup2<T>(x: seq<T>, p: seq<T>, y: seq<T>, a: seq<T>, b: seq<T>, z: seq<T>)
    requires x == p + y && y == a + b + z
    ensures x == p + a + b + z
  {
  }

  /** `pre + (left + right)` regrouped as `(pre + left) + right`. */
  lemma PrefixRegroup<T>(lhs: seq<T>, pre: seq<T>, rest: seq<T>, whole: seq<T>, left: seq<T>, right: seq<T>)
    requires lhs == pre + rest && rest == left + right && whole == pre + left
    ensures lhs == whole + right
  {
  }

  /** A head in front of `left + mid + right`, where `left` is what follows the head in `whole`. */
  lemma ConsRegroup<T>(h: T, lhs: seq<T>, rest: seq<T>, whole: seq<T>, left: seq<T>, mid: seq<T>, right: seq<T>)
    requires lhs == [h] + rest && rest == left + mid + right && whole == [h] + left
    ensures lhs == whole + mid + right
  {
  }

  /** `replace` leaves text without an occurrence of `target` unchanged. */
  lemma {:induction false} ReplaceAbsent(s: string, target: string, rep: string)
    requires target != [] && !Contains(s, target)
    ensures Replace(s, target, rep) == s
    decreases |s|
  {
    if |s| >= |target| {
      ReplaceAbsent(s[1..], target, rep);
    }
  }

  /** When `rep` and `target` differ in length, each replacement changes the length. */
  lemma {:induction false} ReplaceLength(s: string, target: string, rep: string)
    requires target != [] && |rep| != |target|
    ensures |rep| > |target| ==> |Replace(s, target, rep)| >= |s|
    ensures |rep| < |target| ==> |Replace(s, target, rep)| <= |s|
    ensures Contains(s, target) ==> |Replace(s, target, rep)| != |s|
    decreases |s|
  {
    if |s| >= |target| {
      if s[..|target|] == target {
        ReplaceLength(s[|target|..], target, rep);
      } else {
        ReplaceLength(s[1..], target, rep);
      }
    }
  }

  /** `replace` changes its input exactly when `target` occurs (for `rep` of another length). */
  lemma ReplaceChangesIff(s: string, target: string, rep: string)
    requires target != [] && |rep| != |target|
    ensures Replace(s, target, rep) == s <==> !Contains(s, target)
  {
    ReplaceLength(s, target, rep);
    if !Contains(s, target) {
      ReplaceAbsent(s, target, rep);
    }
  }

  /** No occurrence starts in a prefix without the target's first character: the prefix is kept. */
  lemma {:induction false} ReplaceSkipsHead(p: string, u: string, target: string, rep: string)
    requires target != []
    requires forall i :: 0 <= i < |p| ==> p[i] != target[0]
    ensures Replace(p + u, target, rep) == p + Replace(u, target, rep)
    decreases |p|
  {
    if p == [] {
      assert p + u == u;
    } else {
      forall i | 0 <= i < |p| - 1
        ensures p[1..][i] != target[0]
      {
        assert p[1..][i] == p[i + 1];
      }
      ReplaceSkipsHead(p[1..], u, target, rep);
      var s := p + u;
      assert s[1..] == p[1..] + u;
      if |s| >= |target| {
        assert s[..|target|][0] == p[0];
        calc {
          Replace(s, target, rep);
          [p[0]] + Replace(p[1..] + u, target, rep);
          [p[0]] + (p[1..] + Replace(u, target, rep));
          { assert [p[0]] + p[1..] == p; }
          p + Replace(u, target, rep);
        }
      }
    }
  }

  /** An occurrence at the start is replaced. */
  lemma ReplaceAtHead(target: string, t: string, rep: string)
    requires target != []
    ensures Replace(target + t, target, rep) == rep + Replace(t, target, rep)
  {
    var s := target + t;
    assert s[..|target|] == target && s[|target|..] == t;
  }

  /** `s[:n]`. */
  function Take(s: string, n: nat): (r: string)
    ensures |r| == if |s| <= n then |s| else n
    ensures r == s[..|r|]
  {
    if |s| <= n then s else s[..n]
  }

  /**
   * The key under which `re.IGNORECASE` compares two characters: the ASCII
   * letters fold to lower case, and the four non-ASCII letters the `re`
   * documentation lists (dotted capital I, dotless i, long s, Kelvin sign)
   * fold to the ASCII letter they match.
   */
  function Fold(c: char): char {
    if 'A' <= c <= 'Z' then (c as int + 32) as char
    else if c == '\U{0130}' || c == '\U{0131}' then 'i'
    else if c == '\U{017F}' then 's'
    else if c == '\U{212A}' then 'k'
    else c
  }

  /** `t` matches the literal pattern `pat` under `re.IGNORECASE`. */
  predicate MatchesIgnoreCase(t: string, pat: string) {
    |t| == |pat| && forall i :: 0 <= i < |t| ==> Fold(t[i]) == Fold(pat[i])
  }

  /**
   * `re.sub(pat, rep, s, flags=re.IGNORECASE)` for a pattern that is a plain
   * literal (no metacharacters once its escapes are read): every
   * non-overlapping case-insensitive occurrence, scanned left to right.
   */
  function SubIgnoreCase(s: string, pat: string, rep: string): string
    requires pat != []
    decreases |s|
  {
    if |s| < |pat| then s
    else if MatchesIgnoreCase(s[..|pat|], pat) then rep + SubIgnoreCase(s[|pat|..], pat, rep)
    else [s[0]] + SubIgnoreCase(s[1..], pat, rep)
  }

  /** Without an occurrence at its start, a text keeps its first character and the rest is scanned on. */
  lemma SubIgnoreCaseNoMatch(p: string, u: string, pat: string, rep: string)
    requires pat != [] && p != [] && |p + u| >= |pat| && !MatchesIgnoreCase((p + u)[..|pat|], pat)
    ensures SubIgnoreCase(p + u, pat, rep) == [p[0]] + SubIgnoreCase(p[1..] + u, pat, rep)
  {
    assert (p + u)[0] == p[0] && (p + u)[1..] == p[1..] + u;
  }

  /** A prefix whose first character is kept and whose rest passes through passes through whole. */
  lemma SubIgnoreCaseKeepStep(p: string, u: string, pat: string, rep: string)
    requires pat != [] && p != []
    requires |p + u| < |pat| || SubIgnoreCase(p + u, pat, rep) == [p[0]] + SubIgnoreCase(p[1..] + u, pat, rep)
    requires SubIgnoreCase(p[1..] + u, pat, rep) == p[1..] + SubIgnoreCase(u, pat, rep)
    ensures SubIgnoreCase(p + u, pat, rep) == p + SubIgnoreCase(u, pat, rep)
  {
    if |p + u| < |pat| {
      assert SubIgnoreCase(u, pat, rep) == u;
    } else {
      assert [p[0]] + (p[1..] + SubIgnoreCase(u, pat, rep)) == p + SubIgnoreCase(u, pat, rep) by {
        assert [p[0]] + p[1..] == p;
      }
    }
  }

  /** No occurrence starts in a prefix none of whose characters folds like the pattern's first. */
  lemma {:induction false} SubIgnoreCaseSkipsHead(p: string, u: string, pat: string, rep: string)
    requires pat != []
    requires forall i :: 0 <= i < |p| ==> Fold(p[i]) != Fold(pat[0])
    ensures SubIgnoreCase(p + u, pat, rep) == p + SubIgnoreCase(u, pat, rep)
    decreases |p|
  {
    if p == [] {
      assert p + u == u;
    } else {
      forall i | 0 <= i < |p| - 1
        ensures Fold(p[1..][i]) != Fold(pat[0])
      {
        assert p[1..][i] == p[i + 1];
      }
      SubIgnoreCaseSkipsHead(p[1..], u, pat, rep);
      if |p + u| >= |pat| {
        assert (p + u)[..|pat|][0] == p[0];
        SubIgnoreCaseNoMatch(p, u, pat, rep);
      }
      SubIgnoreCaseKeepStep(p, u, pat, rep);
    }
  }

  /** An occurrence at the start is replaced. */
  lemma SubIgnoreCaseAtHead(pat: string, t: string, rep: string)
    requires pat != []
    ensures SubIgnoreCase(pat + t, pat, rep) == rep + SubIgnoreCase(t, pat, rep)
  {
    var s := pat + t;
    assert s[..|pat|] == pat && s[|pat|..] == t;
    assert MatchesIgnoreCase(s[..|pat|], pat);
  }

  /** `s` begins with a case-insensitive occurrence of `w`. */
  predicate StartsWithIgnoreCase(s: string, w: string) {
    |w| <= |s| && MatchesIgnoreCase(s[..|w|], w)
  }

  /** No case-insensitive occurrence of `w` lies anywhere inside `s`. */
  predicate FreeOfIgnoreCase(s: string, w: string) {
    forall i :: 0 <= i <= |s| ==> !StartsWithIgnoreCase(s[i..], w)
  }

  /**
   * No case-insensitive occurrence of `w` can begin before `v` and end
   * inside it: `v` begins with no proper tail of `w`.
   */
  predicate NoMatchAcross(v: string, w: string) {
    forall m :: 0 < m < |w| ==> !StartsWithIgnoreCase(v, w[m..])
  }

  /** A text that does not begin with `w` does not begin with a pattern that begins with `w`. */
  lemma MismatchInPrefix(x: string, pat: string, w: string)
    requires |w| <= |pat| && pat[..|w|] == w && !StartsWithIgnoreCase(x, w)
    ensures !StartsWithIgnoreCase(x, pat)
  {
    if |pat| <= |x| {
      var j :| 0 <= j < |w| && Fold(x[..|w|][j]) != Fold(w[j]);
      assert x[..|pat|][j] == x[j] == x[..|w|][j] && pat[j] == w[j];
    }
  }

  /**
   * In `p + v`, no occurrence of `w` starts inside `p` when `p` holds none
   * and none can run across into `v`.
   */
  lemma NoMatchInFreePrefix(p: string, v: string, w: string)
    requires FreeOfIgnoreCase(p, w) && NoMatchAcross(v, w)
    ensures forall i :: 0 <= i < |p| ==> !StartsWithIgnoreCase((p + v)[i..], w)
  {
    forall i | 0 <= i < |p|
      ensures !StartsWithIgnoreCase((p + v)[i..], w)
    {
      var x := (p + v)[i..];
      if i + |w| <= |p| {
        assert !StartsWithIgnoreCase(p[i..], w);
        assert x[..|w|] == p[i..][..|w|];
      } else if |w| <= |x| {
        var m := |p| - i;
        assert !StartsWithIgnoreCase(v, w[m..]);
        var y := v[..|w| - m];
        var j :| 0 <= j < |w| - m && Fold(y[j]) != Fold(w[m..][j]);
        assert x[..|w|][m + j] == y[j] && w[m..][j] == w[m + j];
      }
    }
  }

  /** No occurrence starts in a prefix where the pattern begins nowhere: it passes through unchanged. */
  lemma {:induction false} SubIgnoreCaseSkips(p: string, u: string, pat: string, rep: string)
    requires pat != []
    requires forall i :: 0 <= i < |p| ==> !StartsWithIgnoreCase((p + u)[i..], pat)
    ensures SubIgnoreCase(p + u, pat, rep) == p + SubIgnoreCase(u, pat, rep)
    decreases |p|
  {
    if p == [] {
      assert p + u == u;
    } else {
      var s := p + u;
      forall i | 0 <= i < |p| - 1
        ensures !StartsWithIgnoreCase((p[1..] + u)[i..], pat)
      {
        assert (p[1..] + u)[i..] == s[i + 1..];
      }
      SubIgnoreCaseSkips(p[1..], u, pat, rep);
      if |s| >= |pat| {
        assert s[0..] == s;
        SubIgnoreCaseNoMatch(p, u, pat, rep);
      }
      SubIgnoreCaseKeepStep(p, u, pat, rep);
    }
  }

  /**
   * A prefix free of `w`, the pattern's beginning, with no occurrence of
   * `w` running across into what follows, passes through unchanged.
   */
  lemma SubIgnoreCaseKeepsFree(p: string, u: string, pat: string, w: string, rep: string)
    requires 0 < |w| <= |pat| && pat[..|w|] == w
    requires FreeOfIgnoreCase(p, w) && NoMatchAcross(u, w)
    ensures SubIgnoreCase(p + u, pat, rep) == p + SubIgnoreCase(u, pat, rep)
  {
    NoMatchInFreePrefix(p, u, w);
    forall i | 0 <= i < |p|
      ensures !StartsWithIgnoreCase((p + u)[i..], pat)
    {
      MismatchInPrefix((p + u)[i..], pat, w);
    }
    SubIgnoreCaseSkips(p, u, pat, rep);
  }

  /**
   * A prefix free of `w`, the pattern's beginning, before a piece `m` that
   * the substitution passes, passes too.
   */
  lemma SubIgnoreCaseKeepsFreeThen(p: string, m: string, rest: string, pat: string, w: string, rep: string)
    requires 0 < |w| <= |pat| && pat[..|w|] == w
    requires FreeOfIgnoreCase(p, w) && NoMatchAcross(m + rest, w)
    requires SubIgnoreCase(m + rest, pat, rep) == m + SubIgnoreCase(rest, pat, rep)
    ensures SubIgnoreCase(p + m + rest, pat, rep) == p + m + SubIgnoreCase(rest, pat, rep)
  {
    var x := SubIgnoreCase(rest, pat, rep);
    assert SubIgnoreCase(p + (m + rest), pat, rep) == p + (m + x) by {
      SubIgnoreCaseKeepsFree(p, m + rest, pat, w, rep);
    }
    assert p + m + rest == p + (m + rest) && p + (m + x) == p + m + x;
  }

  /** A text free of the pattern's beginning is unchanged. */
  lemma SubIgnoreCaseFree(s: string, pat: string, w: string, rep: string)
    requires 0 < |w| <= |pat| && pat[..|w|] == w && FreeOfIgnoreCase(s, w)
    ensures SubIgnoreCase(s, pat, rep) == s
  {
    SubIgnoreCaseKeepsFree(s, [], pat, w, rep);
    assert s + [] == s;
  }

  predicate IsAsciiLetter(c: char) {
    'a' <= c <= 'z' || 'A' <= c <= 'Z'
  }

  predicate IsAsciiDigit(c: char) {
    '0' <= c <= '9'
  }

  /** The regular-expression class `\w`, on ASCII text. */
  predicate IsWordChar(c: char) {
    IsAsciiLetter(c) || IsAsciiDigit(c) || c == '_'
  }

  function HexDigit(n: nat): char
    requires n < 16
  {
    if n < 10 then ('0' as int + n) as char else ('a' as int + n - 10) as char
  }

  /** How `repr` writes one character inside a str delimited by `quote`. */
  function EscapeChar(c: char, quote: char): string {
    var n := c as int;
    if c == quote || c == '\\' then ['\\', c]
    else if c == '\t' then "\\t"
    else if c == '\n' then "\\n"
    else if c == '\r' then "\\r"
    else if n < 0x20 || (0x7F <= n <= 0xA0) || n == 0xAD then
      "\\x" + [HexDigit(n / 16), HexDigit(n % 16)]
    else [c]
  }

  function EscapeAll(s: string, quote: char): string {
    if s == [] then [] else EscapeChar(s[0], quote) + EscapeAll(s[1..], quote)
  }

  /** `repr(s)`: single quotes, unless `s` holds a single quote and no double quote. */
  function PyRepr(s: string): string {
    var quote := if '\'' in s && '"' !in s then '"' else '\'';
    [quote] + EscapeAll(s, quote) + [quote]
  }

  function JoinReprs(items: seq<string>): string {
    if items == [] then ""
    else if |items| == 1 then PyRepr(items[0])
    else PyRepr(items[0]) + ", " + JoinReprs(items[1..])
  }

  /** `str(items)` for a list of str, as an f-string prints it. */
  function PyListRepr(items: seq<string>): string {
    "[" + JoinReprs(items) + "]"
  }

  /** A printable ASCII character that `repr` leaves as it is inside either quotes. */
  predicate IsPlain(c: char) {
    0x20 <= c as int < 0x7F && c != '\'' && c != '"' && c != '\\'
  }

  lemma {:induction false} EscapeAllPlain(s: string, quote: char)
    requires quote == '\'' || quote == '"'
    requires forall i :: 0 <= i < |s| ==> IsPlain(s[i])
    ensures EscapeAll(s, quote) == s
  {
    if s != [] {
      EscapeAllPlain(s[1..], quote);
      assert EscapeChar(s[0], quote) == [s[0]];
      assert s == [s[0]] + s[1..];
    }
  }

  /** The repr of plain text is the text in single quotes. */
  lemma ReprPlain(s: string)
    requires forall i :: 0 <= i < |s| ==> IsPlain(s[i])
    ensures PyRepr(s) == "'" + s + "'"
  {
    EscapeAllPlain(s, '\'');
  }

  /** Text is found between any prefix and suffix. */
  lemma ContainsBetween(a: string, p: string, b: string)
    ensures Contains(a + p + b, p)
  {
    var s := a + p + b;
    assert s[|a|..|a| + |p|] == p;
    ContainsAt(s, p, |a|);
  }
}

/**
 The "smart year" token of `format()`: in the format string, `AY` (optionally
 followed by `(...)`) is deleted when the date lies in the current year and
 becomes `Y` followed by the parenthesised text otherwise. The check for the
 token is a case-sensitive search for `AY`; the rewrite itself is a regular
 expression replacement of `AY`, optionally followed by a parenthesised group:
 case-insensitive, every match from left to right, and the group's body greedy
 up to the last `)` on the line (the body never spans a newline).
 */
module SmartYear {
  import opened Wrappers

  /** `needle` occurs in `s` at index `k`. */
  predicate OccursAt(s: string, needle: string, k: int) {
    0 <= k && k + |needle| <= |s| && s[k..k + |needle|] == needle
  }

  /** `strpos($haystack, $needle)`: the first index of `needle`; None for PHP's `false`. */
  function Strpos(haystack: string, needle: string): (r: Option<nat>)
    ensures r.Some? ==> OccursAt(haystack, needle, r.value)
    ensures r.Some? ==> forall k :: 0 <= k < r.value ==> !OccursAt(haystack, needle, k)
    ensures r.None? ==> forall k :: !OccursAt(haystack, needle, k)
    decreases |haystack|
  {
    if |haystack| < |needle| then None
    else if haystack[..|needle|] == needle then Some(0)
    else
      var tail := haystack[1..];
      assert !OccursAt(haystack, needle, 0) by {
        assert haystack[0..|needle|] == haystack[..|needle|];
      }
      assert forall k :: 1 <= k ==> (OccursAt(haystack, needle, k) <==> OccursAt(tail, needle, k - 1)) by {
        forall k | 1 <= k
          ensures OccursAt(haystack, needle, k) <==> OccursAt(tail, needle, k - 1)
        {
          if k + |needle| <= |haystack| {
            assert tail[k - 1..k - 1 + |needle|] == haystack[k..k + |needle|];
          }
        }
      }
      match Strpos(tail, needle)
      case Some(i) => Some(i + 1)
      case None => None
  }

  predicate IsA(c: char) {
    c == 'A' || c == 'a'
  }

  predicate IsY(c: char) {
    c == 'Y' || c == 'y'
  }

  /** The pattern's literal part, `AY` in either case, starts at index `i`. */
  predicate TokenAt(s: string, i: int) {
    0 <= i && i + 1 < |s| && IsA(s[i]) && IsY(s[i + 1])
  }

  ghost predicate NoToken(s: string) {
    forall i :: !TokenAt(s, i)
  }

  /** The index of the first newline at or after `p`, or the end of `s`. */
  function LineEnd(s: string, p: nat): (e: nat)
    requires p <= |s|
    ensures p <= e <= |s|
    ensures forall k :: p <= k < e ==> s[k] != '\n'
    ensures e < |s| ==> s[e] == '\n'
    decreases |s| - p
  {
    if p == |s| || s[p] == '\n' then p else LineEnd(s, p + 1)
  }

  /** The last `)` in `s[p..e]`, searching from the right. */
  function LastClose(s: string, p: nat, e: nat): (r: Option<nat>)
    requires p <= e <= |s|
    ensures r.Some? ==> p <= r.value < e && s[r.value] == ')'
    ensures r.Some? ==> forall k :: r.value < k < e ==> s[k] != ')'
    ensures r.None? ==> forall k :: p <= k < e ==> s[k] != ')'
    decreases e - p
  {
    if e == p then None
    else if s[e - 1] == ')' then Some(e - 1)
    else LastClose(s, p, e - 1)
  }

  /** A match of the pattern: its length, and the text of group 2 (inside the parentheses). */
  datatype Match = Match(len: nat, inner: string)

  /**
   The match at the start of `s`. The alternative `\(.*\)` is tried first and,
   `.*` being greedy, takes the last `)` before the end of the line; when
   there is none the empty alternative matches `AY` alone.
   */
  function MatchAt(s: string): (m: Match)
    requires TokenAt(s, 0)
    ensures 2 <= m.len <= |s|
    ensures m.len == 2 ==> m.inner == ""
    ensures m.len == 2 && |s| > 2 && s[2] == '(' ==> forall k :: 3 <= k < LineEnd(s, 3) ==> s[k] != ')'
    ensures m.len > 2 ==> 4 <= m.len && s[2] == '(' && s[m.len - 1] == ')' && m.inner == s[3..m.len - 1]
    ensures m.len > 2 ==> forall k :: 3 <= k < m.len - 1 ==> s[k] != '\n'
    ensures m.len > 2 ==> forall k :: m.len <= k < LineEnd(s, 3) ==> s[k] != ')'
  {
    if |s| > 2 && s[2] == '(' then
      match LastClose(s, 3, LineEnd(s, 3))
      case Some(j) => Match(j + 1, s[3..j])
      case None => Match(2, "")
    else Match(2, "")
  }

  /** The replacement template in the current year: the match is deleted. */
  const SAME_YEAR_TEMPLATE := ""

  /** The replacement template in any other year: `Y` followed by group 2. */
  const OTHER_YEAR_TEMPLATE := "Y$2"

  /**
   Expansion of a replacement template in which `$2` is the only group
   reference: it becomes the text of group 2, and every other character is
   copied. Both templates above have this form.
   */
  function ExpandGroup2(template: string, group2: string): string
    decreases |template|
  {
    if |template| == 0 then ""
    else if |template| >= 2 && template[0] == '$' && template[1] == '2' then group2 + ExpandGroup2(template[2..], group2)
    else [template[0]] + ExpandGroup2(template[1..], group2)
  }

  /** What one match is replaced by (an unset group 2 reads as ''). */
  function Replacement(m: Match, sameYear: bool): (r: string)
    ensures sameYear ==> r == ExpandGroup2(SAME_YEAR_TEMPLATE, m.inner)
    ensures !sameYear ==> r == ExpandGroup2(OTHER_YEAR_TEMPLATE, m.inner)
  {
    if sameYear then "" else "Y" + m.inner
  }

  /**
   The global replacement: each match, scanning from the left, is replaced and
   the scan resumes after it. A match is never shorter than what replaces it,
   and outside the current year every match leaves at least a `Y`.
   */
  function ReplaceTokens(s: string, sameYear: bool): (r: string)
    ensures |r| <= |s|
    ensures !sameYear ==> (|r| == 0 <==> |s| == 0)
    decreases |s|
  {
    if |s| == 0 then ""
    else if TokenAt(s, 0) then
      var m := MatchAt(s);
      Replacement(m, sameYear) + ReplaceTokens(s[m.len..], sameYear)
    else [s[0]] + ReplaceTokens(s[1..], sameYear)
  }

  /** The rewrite of `format()`, applied only when the case-sensitive `AY` occurs. */
  function RewriteFormat(format: string, sameYear: bool): (r: string)
    ensures (forall k :: !OccursAt(format, "AY", k)) ==> r == format
    ensures (exists k :: OccursAt(format, "AY", k)) ==> r == ReplaceTokens(format, sameYear)
  {
    if Strpos(format, "AY").Some? then ReplaceTokens(format, sameYear) else format
  }

  /** The timestamp `getDate` formats: the given one when it is truthy, else the clock; 0 and `false` both fall back to now. */
  function EffectiveTime(time: Option<int>, now: int): (t: int)
    ensures time.Some? && time.value != 0 ==> t == time.value
    ensures time.None? || time == Some(0) ==> t == now
  {
    match time
    case Some(v) => if v != 0 then v else now
    case None => now
  }

  /**
   The format string `format($datetime, $format)` hands to `date()`. `yearOf` is
   what `date('Y', ·)` yields; `datetime` is the timestamp (None when parsing failed).
   A timestamp of 0 and a failed parse both count as the current year.
   */
  function FormatPattern(datetime: Option<int>, format: string, now: int, yearOf: int -> int): (r: string)
    ensures datetime.None? || datetime == Some(0) ==> r == RewriteFormat(format, true)
    ensures datetime.Some? && datetime.value != 0 ==> r == RewriteFormat(format, yearOf(datetime.value) == yearOf(now))
  {
    RewriteFormat(format, yearOf(EffectiveTime(datetime, now)) == yearOf(now))
  }

  /** A string without the pattern's literal part is left as it is. */
  lemma {:induction false} NoTokenUnchanged(s: string, sameYear: bool)
    requires NoToken(s)
    ensures ReplaceTokens(s, sameYear) == s
    decreases |s|
  {
    if |s| > 0 {
      assert !TokenAt(s, 0);
      forall i
        ensures !TokenAt(s[1..], i)
      {
        assert !TokenAt(s, i + 1);
      }
      NoTokenUnchanged(s[1..], sameYear);
    }
  }

  /** One step of the scan where no match starts: the first character is copied. */
  lemma CopyStep(s: string, sameYear: bool)
    requires |s| > 0 && !TokenAt(s, 0)
    ensures ReplaceTokens(s, sameYear) == [s[0]] + ReplaceTokens(s[1..], sameYear)
  {
  }

  /** Splitting off the first character of a concatenation. */
  lemma ConsShape(pre: string, rest: string, x: string)
    requires |pre| > 0
    ensures (pre + rest)[0] == pre[0]
    ensures (pre + rest)[1..] == pre[1..] + rest
    ensures [pre[0]] + (pre[1..] + x) == pre + x
  {
    assert pre == [pre[0]] + pre[1..];
  }

  /** A suffix of a token-free string is token-free. */
  lemma NoTokenTail(s: string)
    requires |s| > 0 && NoToken(s)
    ensures NoToken(s[1..])
  {
    forall i
      ensures !TokenAt(s[1..], i)
    {
      assert !TokenAt(s, i + 1);
    }
  }

  /** No match starts at a token-free prefix unless its last `A` is completed by the rest. */
  lemma NoTokenAtJoin(pre: string, rest: string)
    requires |pre| > 0 && NoToken(pre)
    requires |rest| > 0 ==> !(IsA(pre[|pre| - 1]) && IsY(rest[0]))
    ensures !TokenAt(pre + rest, 0)
  {
    assert !TokenAt(pre, 0);
    if |pre| == 1 {
      assert |rest| > 0 ==> (pre + rest)[1] == rest[0];
    } else {
      assert (pre + rest)[1] == pre[1];
    }
  }

  /** A token-free prefix is copied unchanged, provided it does not end in an `A` that the rest completes. */
  lemma {:induction false} PrefixCopied(pre: string, rest: string, sameYear: bool)
    requires NoToken(pre)
    requires |pre| > 0 && |rest| > 0 ==> !(IsA(pre[|pre| - 1]) && IsY(rest[0]))
    ensures ReplaceTokens(pre + rest, sameYear) == pre + ReplaceTokens(rest, sameYear)
    decreases |pre|
  {
    if |pre| > 0 {
      NoTokenAtJoin(pre, rest);
      NoTokenTail(pre);
      ConsShape(pre, rest, ReplaceTokens(rest, sameYear));
      PrefixCopied(pre[1..], rest, sameYear);
      CopyStep(pre + rest, sameYear);
    } else {
      assert pre + rest == rest;
    }
  }

  /** `AY` followed by `(inner)`: the match ends at the `)` that closes `inner` when no `)` follows. */
  lemma MatchWithSuffix(inner: string, post: string)
    requires '\n' !in inner
    requires ')' !in post
    ensures MatchAt("AY(" + inner + ")" + post) == Match(|inner| + 4, inner)
  {
    var t := "AY(" + inner + ")" + post;
    var c := 3 + |inner|;
    assert t[c] == ')';
    assert forall k :: 3 <= k < c ==> t[k] == inner[k - 3];
    assert forall k :: c < k < |t| ==> t[k] == post[k - c - 1];
    var e := LineEnd(t, 3);
    assert c < e;
    var m := MatchAt(t);
    assert m.len - 1 == c;
    assert t[3..c] == inner;
  }

  /** One step of the scan where a match starts: the match is replaced and the scan resumes after it. */
  lemma MatchStep(s: string, sameYear: bool)
    requires TokenAt(s, 0)
    ensures ReplaceTokens(s, sameYear) == Replacement(MatchAt(s), sameYear) + ReplaceTokens(s[MatchAt(s).len..], sameYear)
  {
  }

  /** The rewrite of a format containing the case-sensitive `AY` is the full `preg_replace`. */
  lemma RewriteWhenPresent(pre: string, t: string, sameYear: bool)
    requires |t| >= 2 && t[0] == 'A' && t[1] == 'Y'
    ensures RewriteFormat(pre + t, sameYear) == ReplaceTokens(pre + t, sameYear)
  {
    var s := pre + t;
    assert s[|pre|..|pre| + 2] == t[..2] == "AY";
    assert OccursAt(s, "AY", |pre|);
  }

  /** The replacement of a token with suffix, followed by a rest that holds no token. */
  lemma ReplaceWithSuffix(inner: string, post: string, sameYear: bool)
    requires NoToken(post)
    requires '\n' !in inner
    requires ')' !in post
    ensures ReplaceTokens("AY(" + inner + ")" + post, sameYear) == Replacement(Match(|inner| + 4, inner), sameYear) + post
  {
    var t := "AY(" + inner + ")" + post;
    MatchWithSuffix(inner, post);
    MatchStep(t, sameYear);
    assert t[|inner| + 4..] == post;
    NoTokenUnchanged(post, sameYear);
  }

  /** The replacement of a token without suffix, followed by a rest that holds no token. */
  lemma ReplaceWithoutSuffix(post: string, sameYear: bool)
    requires NoToken(post)
    requires |post| == 0 || post[0] != '(' || ')' !in post
    ensures ReplaceTokens("AY" + post, sameYear) == Replacement(Match(2, ""), sameYear) + post
  {
    var t := "AY" + post;
    MatchStep(t, sameYear);
    assert t[2..] == post;
    NoTokenUnchanged(post, sameYear);
  }

  /** A format made of a token-free prefix and a rest starting with `AY`: the prefix is copied and the rest rewritten. */
  lemma RewriteAfterPrefix(pre: string, t: string, sameYear: bool)
    requires NoToken(pre)
    requires |t| >= 2 && t[0] == 'A' && t[1] == 'Y'
    ensures RewriteFormat(pre + t, sameYear) == pre + ReplaceTokens(t, sameYear)
  {
    RewriteWhenPresent(pre, t, sameYear);
    PrefixCopied(pre, t, sameYear);
  }

  /**
   One smart-year token with a parenthesised suffix: deleted in the current
   year, otherwise `Y` followed by the inner text; the rest of the format is kept.
   */
  lemma SingleTokenWithSuffix(pre: string, inner: string, post: string, sameYear: bool)
    requires NoToken(pre) && NoToken(post)
    requires '\n' !in inner
    requires ')' !in post
    ensures RewriteFormat(pre + "AY(" + inner + ")" + post, sameYear) ==
            if sameYear then pre + post else pre + "Y" + inner + post
  {
    SuffixShape(pre, inner, post);
    RewriteAfterPrefix(pre, "AY(" + inner + ")" + post, sameYear);
    ReplaceWithSuffix(inner, post, sameYear);
  }

  /** Regrouping of the concatenations in SingleTokenWithSuffix. */
  lemma SuffixShape(pre: string, inner: string, post: string)
    ensures pre + "AY(" + inner + ")" + post == pre + ("AY(" + inner + ")" + post)
    ensures pre + ("Y" + inner + post) == pre + "Y" + inner + post
    ensures pre + ("" + post) == pre + post
  {
  }

  /**
   One smart-year token without a suffix (the next character is not `(`, or no
   `)` follows): deleted in the current year, otherwise just `Y`.
   */
  lemma SingleTokenWithoutSuffix(pre: string, post: string, sameYear: bool)
    requires NoToken(pre) && NoToken(post)
    requires |post| == 0 || post[0] != '(' || ')' !in post
    ensures RewriteFormat(pre + "AY" + post, sameYear) == if sameYear then pre + post else pre + "Y" + post
  {
    NoSuffixShape(pre, post);
    RewriteAfterPrefix(pre, "AY" + post, sameYear);
    ReplaceWithoutSuffix(post, sameYear);
  }

  /** Regrouping of the concatenations in SingleTokenWithoutSuffix. */
  lemma NoSuffixShape(pre: string, post: string)
    ensures pre + "AY" + post == pre + ("AY" + post)
    ensures pre + ("Y" + "" + post) == pre + "Y" + post
    ensures pre + ("" + post) == pre + post
  {
  }

  /** `.*` is greedy: the suffix runs to the last `)` of the line, so "AY(a)b)c" becomes "Ya)bc" in another year... */
  lemma GreedySuffixExample()
    ensures RewriteFormat("AY(a)b)c", false) == "Ya)bc"
  {
    SingleTokenWithSuffix("", "a)b", "c", false);
    GreedyShape();
  }

  /** ... and "c" in the current year. */
  lemma GreedySuffixSameYearExample()
    ensures RewriteFormat("AY(a)b)c", true) == "c"
  {
    SingleTokenWithSuffix("", "a)b", "c", true);
    GreedyShape();
  }

  /** The example format written as prefix, token, suffix and rest. */
  lemma GreedyShape()
    ensures "" + "AY(" + "a)b" + ")" + "c" == "AY(a)b)c"
    ensures "" + "Y" + "a)b" + "c" == "Ya)bc"
    ensures "" + "c" == "c"
  {
  }

  /** `.` does not cross a newline: a `)` on the next line does not close the suffix. */
  lemma NewlineEndsSuffixExample()
    ensures RewriteFormat("AY(x\n)", true) == "(x\n)"
  {
    var t := "AY(x\n)";
    NewlineMatch();
    RewriteWhenPresent("", t, true);
    MatchStep(t, true);
    NewlineRest();
    NoTokenUnchanged("(x\n)", true);
  }

  /** The match in NewlineEndsSuffixExample is `AY` alone. */
  lemma NewlineMatch()
    ensures MatchAt("AY(x\n)") == Match(2, "")
  {
    assert LineEnd("AY(x\n)", 3) == 4;
  }

  /** What follows the match in NewlineEndsSuffixExample holds no token. */
  lemma NewlineRest()
    ensures "AY(x\n)"[2..] == "(x\n)"
    ensures "" + "AY(x\n)" == "AY(x\n)"
    ensures NoToken("(x\n)")
  {
  }

  /** The presence test is case-sensitive: a format with only a lower-case "ay" is left alone. */
  lemma LowerCaseAloneExample()
    ensures RewriteFormat("d ay", false) == "d ay"
  {
    var f := "d ay";
    forall k
      ensures !OccursAt(f, "AY", k)
    {
      if 0 <= k && k + 2 <= |f| {
        assert f[k..k + 2][0] == f[k] != 'A';
      }
    }
  }

  /** Once an upper-case "AY" is present, every case variant of the token is rewritten. */
  lemma LowerCaseAlongExample()
    ensures RewriteFormat("AY-ay", false) == "Y-Y"
  {
    var t := "AY-ay";
    RewriteWhenPresent("", t, false);
    MatchStep(t, false);
    assert t[2..] == "-ay";
    CopyStep("-ay", false);
    assert "-ay"[1..] == "ay";
    MatchStep("ay", false);
    assert "ay"[2..] == "";
  }

}

/**
 * The mention token grammar `\B@([\S]+)` written out as a scanner, the
 * sequence of matches `Matcher.find` reports for it, and `String.split`
 * over the same grammar with its default limit of zero.
 */
module MentionRegex {

  /** `\w` of java.util.regex without UNICODE_CHARACTER_CLASS. */
  predicate IsWordChar(c: char) {
    ('a' <= c <= 'z') || ('A' <= c <= 'Z') || ('0' <= c <= '9') || c == '_'
  }

  /** `\s`: space, tab, newline, vertical tab, form feed and carriage return. */
  predicate IsSpace(c: char) {
    c == ' ' || c == '\t' || c == '\n' || c == '\U{000B}' || c == '\U{000C}' || c == '\r'
  }

  /** The pattern matches at `p`: `\B` holds before the '@' (it opens the
      string or follows a non-word character), and a non-whitespace
      character follows it. */
  predicate TokenStartsAt(s: string, p: nat): (b: bool)
    ensures b ==> p + 1 < |s| && p + 2 <= RunEnd(s, p + 1)
  {
    p + 1 < |s| && s[p] == '@' && !IsSpace(s[p + 1]) && (p == 0 || !IsWordChar(s[p - 1]))
  }

  /** The end of the greedy `[\S]+` run that begins at `q`. */
  function RunEnd(s: string, q: nat): (e: nat)
    requires q <= |s|
    ensures q <= e <= |s|
    ensures forall k :: q <= k < e ==> !IsSpace(s[k])
    ensures e == |s| || IsSpace(s[e])
    decreases |s| - q
  {
    if q == |s| || IsSpace(s[q]) then q else RunEnd(s, q + 1)
  }

  /** A match: the token is `s[start..end]`, its leading '@' included. */
  datatype Span = Span(start: nat, end: nat)

  predicate IsTokenSpan(s: string, sp: Span) {
    && TokenStartsAt(s, sp.start)
    && sp.start + 2 <= sp.end <= |s|
    && sp.end == RunEnd(s, sp.start + 1)
  }

  /** Spans in increasing order with at least one character between
      neighbours, each at least two characters long and opening with '@'. */
  predicate Ordered(s: string, ms: seq<Span>) {
    && (forall j :: 0 <= j < |ms| ==> ms[j].start + 2 <= ms[j].end <= |s| && s[ms[j].start] == '@')
    && (forall a, b :: 0 <= a < b < |ms| ==> ms[a].end < ms[b].start)
  }

  /** Ordered spans that are all matches of the pattern. */
  predicate IsMatchList(s: string, ms: seq<Span>) {
    Ordered(s, ms) && forall j :: 0 <= j < |ms| ==> IsTokenSpan(s, ms[j])
  }

  /** The matches that repeated `Matcher.find` calls report, searching from `i`:
      each search resumes where the previous match ended. */
  function FindFrom(s: string, i: nat): (ms: seq<Span>)
    requires i <= |s|
    ensures 2 * |ms| <= |s| - i
    decreases |s| - i
  {
    if i == |s| then []
    else if TokenStartsAt(s, i) then [Span(i, RunEnd(s, i + 1))] + FindFrom(s, RunEnd(s, i + 1))
    else FindFrom(s, i + 1)
  }

  /** The scan reports only matches, in order, all at or after where it began. */
  lemma {:induction false} FindFromMatchList(s: string, i: nat)
    requires i <= |s|
    ensures IsMatchList(s, FindFrom(s, i))
    ensures forall j :: 0 <= j < |FindFrom(s, i)| ==> i <= FindFrom(s, i)[j].start
    decreases |s| - i
  {
    if i < |s| {
      if TokenStartsAt(s, i) {
        var e := RunEnd(s, i + 1);
        var rest := FindFrom(s, e);
        FindFromMatchList(s, e);
        forall j | 0 <= j < |rest| ensures e < rest[j].start {
          assert TokenStartsAt(s, rest[j].start);
        }
        MatchListCons(s, Span(i, e), rest);
      } else {
        FindFromMatchList(s, i + 1);
      }
    }
  }

  lemma MatchListCons(s: string, sp: Span, rest: seq<Span>)
    requires IsTokenSpan(s, sp) && IsMatchList(s, rest)
    requires forall j :: 0 <= j < |rest| ==> sp.end < rest[j].start
    ensures IsMatchList(s, [sp] + rest)
    ensures forall j :: 0 <= j < |[sp] + rest| ==> sp.start <= ([sp] + rest)[j].start
  {
    var ms := [sp] + rest;
    forall a, b | 0 <= a < b < |ms| ensures ms[a].end < ms[b].start {
      assert ms[b] == rest[b - 1];
      if a > 0 {
        assert ms[a] == rest[a - 1];
      }
    }
    forall j | 0 <= j < |ms| ensures IsTokenSpan(s, ms[j]) && sp.start <= ms[j].start {
      if j > 0 {
        assert ms[j] == rest[j - 1];
      }
    }
  }

  /** All matches of the pattern in `s`, left to right. */
  function Matches(s: string): (ms: seq<Span>)
    ensures Ordered(s, ms)
  {
    FindFromMatchList(s, 0);
    FindFrom(s, 0)
  }

  /** Every reported span is a match of the pattern. */
  lemma MatchesAreTokens(s: string)
    ensures IsMatchList(s, Matches(s))
  {
    FindFromMatchList(s, 0);
  }

  /** Position `p` lies inside one of the spans. */
  ghost predicate Covered(ms: seq<Span>, p: int) {
    exists j :: 0 <= j < |ms| && ms[j].start <= p < ms[j].end
  }

  /** The scan misses no match: every position where the pattern could start
      lies inside a reported match, so tokens are leftmost and longest, and a
      later '@' inside a token is swallowed by it. */
  lemma {:induction false} FindFromCovers(s: string, i: nat)
    requires i <= |s|
    ensures forall p: nat :: i <= p < |s| && TokenStartsAt(s, p) ==> Covered(FindFrom(s, i), p)
    decreases |s| - i
  {
    if i < |s| {
      var ms := FindFrom(s, i);
      if TokenStartsAt(s, i) {
        var e := RunEnd(s, i + 1);
        var rest := FindFrom(s, e);
        FindFromCovers(s, e);
        forall p: nat | i <= p < |s| && TokenStartsAt(s, p) ensures Covered(ms, p) {
          if p < e {
            assert ms[0].start <= p < ms[0].end;
          } else {
            var j :| 0 <= j < |rest| && rest[j].start <= p < rest[j].end;
            assert ms[j + 1] == rest[j];
          }
        }
      } else {
        FindFromCovers(s, i + 1);
      }
    }
  }

  /** The first reported match is the leftmost place the pattern matches:
      nothing matches before it, and nothing at all when the scan found nothing. */
  lemma BeforeFirstMatch(s: string)
    ensures var ms := Matches(s);
      var k := if |ms| == 0 then |s| else ms[0].start;
      && (forall p: nat :: p < k ==> !TokenStartsAt(s, p))
      && (k < |s| ==> TokenStartsAt(s, k))
  {
    var ms := Matches(s);
    var k := if |ms| == 0 then |s| else ms[0].start;
    FirstIsLeast(s, ms);
    FindFromCovers(s, 0);
    if |ms| > 0 {
      MatchesAreTokens(s);
      assert IsTokenSpan(s, ms[0]);
    }
  }

  /** Ordered spans lie at or after the first one's start, so no position
      before it is covered. */
  lemma FirstIsLeast(s: string, ms: seq<Span>)
    requires Ordered(s, ms)
    ensures var k := if |ms| == 0 then |s| else ms[0].start;
      forall p: int :: p < k ==> !Covered(ms, p)
  {
    var k := if |ms| == 0 then |s| else ms[0].start;
    forall j | 0 < j < |ms| ensures k <= ms[j].start {
      assert ms[0].end < ms[j].start;
    }
  }

  /** The text between matches: piece `j` runs from the end of match `j - 1`
      (or the start of `s`) to the start of match `j` (or the end of `s`). */
  function Piece(s: string, ms: seq<Span>, j: nat): string
    requires Ordered(s, ms) && j <= |ms|
  {
    var lo := if j == 0 then 0 else ms[j - 1].end;
    var hi := if j == |ms| then |s| else ms[j].start;
    s[lo..hi]
  }

  function Pieces(s: string, ms: seq<Span>): (ps: seq<string>)
    requires Ordered(s, ms)
    ensures |ps| == |ms| + 1
    ensures forall j :: 0 <= j <= |ms| ==> ps[j] == Piece(s, ms, j)
  {
    seq(|ms| + 1, j requires 0 <= j <= |ms| => Piece(s, ms, j))
  }

  /** What a zero limit makes `split` do last: drop the empty strings at the end. */
  function StripTrailingEmpty(xs: seq<string>): (r: seq<string>)
    ensures |r| <= |xs| && r == xs[..|r|]
    ensures forall k :: |r| <= k < |xs| ==> xs[k] == ""
    ensures |r| > 0 ==> r[|r| - 1] != ""
    decreases |xs|
  {
    if |xs| > 0 && xs[|xs| - 1] == "" then StripTrailingEmpty(xs[..|xs| - 1]) else xs
  }

  /** `s.split("\\B@([\\S]+)")`: the whole input when nothing matches, otherwise
      the pieces between matches with the trailing empty ones removed. */
  function Split(s: string): (t: seq<string>)
    ensures var ps := Pieces(s, Matches(s));
      && |t| <= |ps| && t == ps[..|t|]
      && (forall k :: |t| <= k < |ps| ==> ps[k] == "")
      && (|Matches(s)| > 0 && |t| > 0 ==> t[|t| - 1] != "")
  {
    var ms := Matches(s);
    assert |ms| == 0 ==> Pieces(s, ms) == [s[0..|s|]] && s[0..|s|] == s;
    if |ms| == 0 then [s] else StripTrailingEmpty(Pieces(s, ms))
  }

  /** The input is one mention token and nothing else. */
  predicate IsLoneToken(s: string) {
    |s| >= 2 && s[0] == '@' && forall k :: 1 <= k < |s| ==> !IsSpace(s[k])
  }

  /** The shape of a split: when something matched, the result is a prefix of
      the pieces, everything cut off is empty, the last piece survives exactly
      when it is not empty, and only a single match can lose every piece. */
  lemma SplitShape(s: string)
    ensures |Matches(s)| == 0 ==> Split(s) == [s]
    ensures |Matches(s)| > 0 ==>
      var ms := Matches(s);
      var ps := Pieces(s, ms);
      var t := Split(s);
      && t == ps[..|t|]
      && (forall k :: |t| <= k <= |ms| ==> ps[k] == "")
      && (|t| == |ms| + 1 <==> ps[|ms|] != "")
      && (|t| >= |ms| || (|ms| == 1 && |t| == 0))
  {
    var ms := Matches(s);
    if |ms| > 0 {
      var ps := Pieces(s, ms);
      if |ms| >= 2 {
        MiddlePieceNotEmpty(s, ms, |ms| - 1);
      }
      StripShape(ps, |ms|);
      assert Split(s) == StripTrailingEmpty(ps);
    }
  }

  /** Stripping `m + 1` strings whose second-to-last is not empty (when there
      is one) keeps all of them exactly when the last is not empty, and loses
      more than the last only when `m` is one. */
  lemma StripShape(xs: seq<string>, m: nat)
    requires m >= 1 && |xs| == m + 1 && (m >= 2 ==> xs[m - 1] != "")
    ensures var t := StripTrailingEmpty(xs);
      && (|t| == m + 1 <==> xs[m] != "")
      && (|t| >= m || (m == 1 && |t| == 0))
  {
    StripLength(xs);
    if m >= 2 {
      StripKeeps(xs, m - 1);
    }
  }

  /** A piece strictly between two matches holds at least the whitespace that
      ended the earlier one. */
  lemma MiddlePieceNotEmpty(s: string, ms: seq<Span>, j: nat)
    requires Ordered(s, ms) && 0 < j < |ms|
    ensures Piece(s, ms, j) != ""
  {
    assert ms[j - 1].end < ms[j].start;
    assert |Piece(s, ms, j)| == ms[j].start - ms[j - 1].end;
  }

  /** Stripping never removes a non-empty string. */
  lemma StripKeeps(xs: seq<string>, m: nat)
    requires m < |xs| && xs[m] != ""
    ensures |StripTrailingEmpty(xs)| > m
  {
  }

  /** The full list survives stripping exactly when its last string is not empty. */
  lemma StripLength(xs: seq<string>)
    requires |xs| > 0
    ensures |StripTrailingEmpty(xs)| == |xs| <==> xs[|xs| - 1] != ""
  {
  }

  /** A split comes back empty exactly when the input is a lone mention token. */
  lemma SplitEmptyIffLoneToken(s: string)
    ensures |Split(s)| == 0 <==> IsLoneToken(s)
  {
    var ms := Matches(s);
    SplitShape(s);
    if |Split(s)| == 0 {
      var ps := Pieces(s, ms);
      assert |ms| == 1;
      assert ps[0] == "" && ps[1] == "";
      MatchesAreTokens(s);
      assert |Piece(s, ms, 0)| == ms[0].start;
      assert |Piece(s, ms, 1)| == |s| - ms[0].end;
      assert IsTokenSpan(s, ms[0]);
    }
    if IsLoneToken(s) {
      assert TokenStartsAt(s, 0);
      assert RunEnd(s, 1) == |s|;
      assert ms == [Span(0, |s|)] + FindFrom(s, |s|);
      var ps := Pieces(s, ms);
      assert ps[0] == "" && ps[1] == "";
    }
  }
}

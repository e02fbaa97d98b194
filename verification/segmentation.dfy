/**
 * Splitting a message's raw text into content segments, as `createMessage`
 * does: the first split piece, then for every mention token the resolved
 * segment followed by the next split piece when the split produced one.
 */
module Segmentation {
  import opened Wrappers
  import opened Domain
  import opened MentionRegex

  /** The text a segment stands for in a message: a mention is written `@name`. */
  function SourceText(c: Content): string {
    match c
    case Literal(t) => t
    case UserRef(u) => "@" + u.name
  }

  /** The concatenated source texts of a segment list. */
  function Source(cs: seq<Content>): string
    decreases |cs|
  {
    if |cs| == 0 then "" else SourceText(cs[0]) + Source(cs[1..])
  }

  lemma {:induction false} SourceAppend(a: seq<Content>, b: seq<Content>)
    ensures Source(a + b) == Source(a) + Source(b)
    decreases |a|
  {
    if |a| == 0 {
      assert a + b == b;
    } else {
      assert (a + b)[0] == a[0];
      assert (a + b)[1..] == a[1..] + b;
      SourceAppend(a[1..], b);
    }
  }

  /** The segment for one matched token: a lookup hit on the token without
      its '@' gives the user, a miss keeps the whole token as text. */
  function Resolve(s: string, sp: Span, byName: Directory): (c: Content)
    requires sp.start + 2 <= sp.end <= |s| && s[sp.start] == '@'
    ensures c.UserRef? <==> s[sp.start + 1..sp.end] in byName
    ensures c.UserRef? ==> c.user == byName[s[sp.start + 1..sp.end]]
    ensures c.Literal? ==> c.text == s[sp.start..sp.end]
    ensures FiledByName(byName) ==> SourceText(c) == s[sp.start..sp.end]
  {
    var token := s[sp.start..sp.end];
    var name := token[1..];
    assert token == "@" + name;
    if name in byName then UserRef(byName[name]) else Literal(token)
  }

  /** The resolved segment of every match, in match order. */
  function ResolveAll(s: string, ms: seq<Span>, byName: Directory): (rs: seq<Content>)
    requires Ordered(s, ms)
    ensures |rs| == |ms|
    ensures forall t :: 0 <= t < |ms| ==> rs[t] == Resolve(s, ms[t], byName)
    ensures forall t :: 0 <= t < |ms| ==> rs[t] != Literal("")
  {
    seq(|ms|, t requires 0 <= t < |ms| => Resolve(s, ms[t], byName))
  }

  /** The segments the `while (m.find())` loop appends from match `j` on:
      the resolved token, then the split piece after it while one exists. */
  function Interleave(rs: seq<Content>, tokens: seq<string>, j: nat): seq<Content>
    requires j <= |rs|
    decreases |rs| - j
  {
    if j == |rs| then []
    else
      [rs[j]]
      + (if |tokens| > j + 1 then [Literal(tokens[j + 1])] else [])
      + Interleave(rs, tokens, j + 1)
  }

  /** The content list of `createMessage`, or the exception `tokens[0]` raises
      when the split comes back empty. */
  function Segment(s: string, byName: Directory): (r: Result<seq<Content>, Fault>)
    ensures r.Failure? ==> r.error == IndexOutOfBounds
    ensures r.Success? ==> |r.value| >= 1 && r.value[0].Literal?
  {
    var tokens := Split(s);
    if |tokens| == 0 then Failure(IndexOutOfBounds)
    else
      var ms := Matches(s);
      Success([Literal(tokens[0])] + Interleave(ResolveAll(s, ms, byName), tokens, 0))
  }

  /** The segmentation loop as the source writes it: split once, then walk
      the matches, counting them in `i` and resolving each as it is found. */
  method BuildContents(s: string, byName: Directory) returns (r: Result<seq<Content>, Fault>)
    ensures r == Segment(s, byName)
  {
    var tokens := Split(s);
    if |tokens| == 0 {
      return Failure(IndexOutOfBounds);
    }
    var ms := Matches(s);
    ghost var rs := ResolveAll(s, ms, byName);
    var contents := [Literal(tokens[0])];
    var i := 0;
    while i < |ms|
      invariant 0 <= i <= |ms|
      invariant contents == Emitted(rs, tokens, i)
    {
      var segment := Resolve(s, ms[i], byName);
      contents := contents + [segment];
      i := i + 1;
      if |tokens| > i {
        contents := contents + [Literal(tokens[i])];
      }
    }
    EmittedThenInterleave(rs, tokens, i);
    assert contents + [] == contents;
    return Success(contents);
  }

  /** What the loop has collected once it has handled the first `i` matches. */
  function Emitted(rs: seq<Content>, tokens: seq<string>, i: nat): seq<Content>
    requires i <= |rs| && |tokens| > 0
    decreases i
  {
    if i == 0 then [Literal(tokens[0])]
    else if |tokens| > i then Emitted(rs, tokens, i - 1) + [rs[i - 1]] + [Literal(tokens[i])]
    else Emitted(rs, tokens, i - 1) + [rs[i - 1]]
  }

  /** What the loop has collected, followed by what it has still to add, is
      the whole segment list. */
  lemma {:induction false} EmittedThenInterleave(rs: seq<Content>, tokens: seq<string>, i: nat)
    requires i <= |rs| && |tokens| > 0
    ensures Emitted(rs, tokens, i) + Interleave(rs, tokens, i) == [Literal(tokens[0])] + Interleave(rs, tokens, 0)
    decreases i
  {
    if i > 0 {
      EmittedThenInterleave(rs, tokens, i - 1);
      InterleaveStep(Emitted(rs, tokens, i - 1), rs[i - 1], Emitted(rs, tokens, i), rs, tokens, i - 1);
    }
  }

  /** How a non-empty split relates to the pieces between matches: it keeps a
      prefix of them, at least one per match, and drops only empty ones. */
  lemma SplitAgainstPieces(s: string)
    requires !IsLoneToken(s)
    ensures |Split(s)| > 0
    ensures var ms := Matches(s);
      var ps := Pieces(s, ms);
      var t := Split(s);
      && |ms| <= |t| <= |ms| + 1
      && t == ps[..|t|]
      && (forall k :: |t| <= k <= |ms| ==> ps[k] == "")
      && (|ms| > 0 ==> (|t| == |ms| + 1 <==> ps[|ms|] != ""))
  {
    SplitEmptyIffLoneToken(s);
    SplitShape(s);
    var ms := Matches(s);
    if |ms| == 0 {
      assert Pieces(s, ms)[0] == s[0..|s|] == s;
    }
  }

  /** Index by index, the loop emits resolved token `t` at offset `2 * (t - j)`
      and, while the split has it, piece `u` at offset `2 * (u - j) - 1`. */
  lemma {:induction false} InterleaveShape(rs: seq<Content>, tokens: seq<string>, j: nat)
    requires j <= |rs| <= |tokens| <= |rs| + 1
    ensures var c := Interleave(rs, tokens, j);
      && |c| == 2 * (|rs| - j) - (if |tokens| == |rs| && j < |rs| then 1 else 0)
      && (forall t :: j <= t < |rs| ==> c[2 * (t - j)] == rs[t])
      && (forall u :: j < u < |tokens| ==> c[2 * (u - j) - 1] == Literal(tokens[u]))
    decreases |rs| - j
  {
    if j < |rs| {
      InterleaveShape(rs, tokens, j + 1);
      var rest := Interleave(rs, tokens, j + 1);
      var lit: seq<Content> := if |tokens| > j + 1 then [Literal(tokens[j + 1])] else [];
      var c := [rs[j]] + lit + rest;
      assert Interleave(rs, tokens, j) == c;
      if j + 1 < |rs| {
        forall t | j + 1 <= t < |rs| ensures c[2 * (t - j)] == rs[t] {
          assert c[2 * (t - j)] == rest[2 * (t - (j + 1))];
        }
        forall u | j + 1 < u < |tokens| ensures c[2 * (u - j) - 1] == Literal(tokens[u]) {
          assert c[2 * (u - j) - 1] == rest[2 * (u - (j + 1)) - 1];
        }
      }
    }
  }

  /** The layout of a segment list `cs` built from resolved tokens `rs` and
      the pieces `ps` between them: the first piece, then for the `t`-th match
      its segment at `2t + 1` and the piece after it at `2t + 2`; the last
      piece is left out exactly when it is empty and something matched. */
  predicate ShapeOf(cs: seq<Content>, rs: seq<Content>, ps: seq<string>) {
    && |ps| == |rs| + 1
    && |cs| == 2 * |rs| + 1 - (if |rs| > 0 && ps[|rs|] == "" then 1 else 0)
    && cs[0] == Literal(ps[0])
    && (forall t :: 0 <= t < |rs| ==> cs[2 * t + 1] == rs[t])
    && (forall t :: 1 <= t <= |rs| && 2 * t < |cs| ==> cs[2 * t] == Literal(ps[t]))
  }

  /** The shape of a successful segmentation, against the matches and the
      pieces between them. */
  lemma SegmentShape(s: string, byName: Directory)
    requires !IsLoneToken(s)
    ensures Segment(s, byName).Success?
    ensures var ms := Matches(s);
      ShapeOf(Segment(s, byName).value, ResolveAll(s, ms, byName), Pieces(s, ms))
  {
    var ms := Matches(s);
    SplitAgainstPieces(s);
    InterleaveAgainstPieces(ResolveAll(s, ms, byName), Split(s), Pieces(s, ms));
    SegmentUnfold(s, byName);
  }

  /** One turn of the loop: appending the current match's segment, and the
      piece after it when the split has one, moves the loop one match on. */
  lemma InterleaveStep(before: seq<Content>, segment: Content, after: seq<Content>, rs: seq<Content>, tokens: seq<string>, i: nat)
    requires i < |rs| && segment == rs[i]
    requires after == if |tokens| > i + 1 then before + [segment] + [Literal(tokens[i + 1])] else before + [segment]
    ensures after + Interleave(rs, tokens, i + 1) == before + Interleave(rs, tokens, i)
  {
  }

  /** The shape argument on sequences alone: interleaving the resolved tokens
      with a split that keeps a prefix of the pieces, dropping only empty ones. */
  lemma InterleaveAgainstPieces(rs: seq<Content>, tokens: seq<string>, ps: seq<string>)
    requires |ps| == |rs| + 1 && |rs| <= |tokens| <= |rs| + 1
    requires tokens == ps[..|tokens|]
    requires forall k :: |tokens| <= k <= |rs| ==> ps[k] == ""
    requires |rs| > 0 ==> (|tokens| == |rs| + 1 <==> ps[|rs|] != "")
    requires |tokens| > 0
    ensures ShapeOf([Literal(tokens[0])] + Interleave(rs, tokens, 0), rs, ps)
  {
    LeadOdd(rs, tokens);
    LeadEven(rs, tokens);
    var cs := [Literal(tokens[0])] + Interleave(rs, tokens, 0);
    forall t | 1 <= t <= |rs| && 2 * t < |cs| ensures cs[2 * t] == Literal(ps[t]) {
      assert t < |tokens|;
    }
  }

  /** The segment list puts the `t`-th resolved token at `2t + 1`, and is one
      shorter than two per match plus one when the split kept no last piece. */
  lemma LeadOdd(rs: seq<Content>, tokens: seq<string>)
    requires |rs| <= |tokens| <= |rs| + 1 && |tokens| > 0
    ensures var cs := [Literal(tokens[0])] + Interleave(rs, tokens, 0);
      && |cs| == 2 * |rs| + 1 - (if |tokens| == |rs| then 1 else 0)
      && forall t :: 0 <= t < |rs| ==> cs[2 * t + 1] == rs[t]
  {
    InterleaveShape(rs, tokens, 0);
    var c := Interleave(rs, tokens, 0);
    var cs := [Literal(tokens[0])] + c;
    forall t | 0 <= t < |rs| ensures cs[2 * t + 1] == rs[t] {
      assert cs[2 * t + 1] == c[2 * (t - 0)];
    }
  }

  /** The segment list puts split piece `u` at `2u`. */
  lemma LeadEven(rs: seq<Content>, tokens: seq<string>)
    requires |rs| <= |tokens| <= |rs| + 1 && |tokens| > 0
    ensures var cs := [Literal(tokens[0])] + Interleave(rs, tokens, 0);
      forall u :: 0 <= u < |tokens| ==> 2 * u < |cs| && cs[2 * u] == Literal(tokens[u])
  {
    InterleaveShape(rs, tokens, 0);
    var c := Interleave(rs, tokens, 0);
    var cs := [Literal(tokens[0])] + c;
    forall u | 0 < u < |tokens| ensures 2 * u < |cs| && cs[2 * u] == Literal(tokens[u]) {
      assert cs[2 * u] == c[2 * (u - 0) - 1];
    }
  }

  /** A segmentation fails exactly when the text is one mention token alone:
      the split then drops its only, empty, pieces and `tokens[0]` throws. */
  lemma SegmentFailsIffLoneToken(s: string, byName: Directory)
    ensures Segment(s, byName).Failure? <==> IsLoneToken(s)
  {
    SplitEmptyIffLoneToken(s);
  }

  /** Text in which no mention token starts becomes one literal segment
      holding all of it, the empty text included. */
  lemma SegmentWithoutMention(s: string, byName: Directory)
    requires forall p: nat :: !TokenStartsAt(s, p)
    ensures Segment(s, byName) == Success([Literal(s)])
  {
    var ms := Matches(s);
    if |ms| > 0 {
      var first := ms[0];
      MatchesAreTokens(s);
      assert false;
    }
    SplitShape(s);
    assert Split(s) == [s];
    assert Interleave(ResolveAll(s, ms, byName), Split(s), 0) == [];
    assert [Literal(s)] + [] == [Literal(s)];
  }

  /** The first segment is the literal text before the first mention token:
      no token starts inside it, and one starts right after it unless it is
      the whole text. It is empty when the text opens with a mention. */
  lemma SegmentLeadingLiteral(s: string, byName: Directory)
    requires !IsLoneToken(s)
    ensures Segment(s, byName).Success?
    ensures var lead := Segment(s, byName).value[0].text;
      && lead == s[..|lead|]
      && (forall p: nat :: p < |lead| ==> !TokenStartsAt(s, p))
      && (|lead| < |s| ==> TokenStartsAt(s, |lead|))
  {
    var ms := Matches(s);
    SegmentShape(s, byName);
    BeforeFirstMatch(s);
    assert Segment(s, byName).value[0].text == Pieces(s, ms)[0] == Piece(s, ms, 0);
  }

  /** A successful segmentation, its resolved tokens and its pieces, named. */
  lemma SegmentParts(s: string, byName: Directory) returns (cs: seq<Content>, rs: seq<Content>, ps: seq<string>)
    requires !IsLoneToken(s)
    ensures Segment(s, byName) == Success(cs)
    ensures ShapeOf(cs, rs, ps) && |rs| == |Matches(s)|
    ensures forall t :: 0 <= t < |rs| ==> rs[t] != Literal("")
  {
    var ms := Matches(s);
    SegmentShape(s, byName);
    cs, rs, ps := Segment(s, byName).value, ResolveAll(s, ms, byName), Pieces(s, ms);
  }

  /** On sequences alone: a layout whose segments are never empty literals
      ends in a non-empty last piece or in the last segment. */
  lemma ShapeLast(cs: seq<Content>, rs: seq<Content>, ps: seq<string>)
    requires ShapeOf(cs, rs, ps) && |rs| > 0
    requires forall t :: 0 <= t < |rs| ==> rs[t] != Literal("")
    ensures cs[|cs| - 1] != Literal("")
  {
    var k := |rs|;
    if ps[k] == "" {
      assert cs[|cs| - 1] == cs[2 * (k - 1) + 1] == rs[k - 1];
    } else {
      assert cs[|cs| - 1] == cs[2 * k] == Literal(ps[k]);
    }
  }

  /** Whenever something matched, the list never ends in an empty literal:
      it ends in the last piece when that is not empty, and otherwise in the
      last token's segment, which is never empty either. */
  lemma SegmentNoTrailingEmptyLiteral(s: string, byName: Directory)
    requires !IsLoneToken(s) && |Matches(s)| > 0
    ensures Segment(s, byName).Success?
    ensures var cs := Segment(s, byName).value; cs[|cs| - 1] != Literal("")
  {
    var cs, rs, ps := SegmentParts(s, byName);
    ShapeLast(cs, rs, ps);
  }

  /** The text of every match, in match order. */
  function TokenTexts(s: string, ms: seq<Span>): (toks: seq<string>)
    requires Ordered(s, ms)
    ensures |toks| == |ms|
    ensures forall t :: 0 <= t < |ms| ==> toks[t] == s[ms[t].start..ms[t].end]
  {
    seq(|ms|, t requires 0 <= t < |ms| => s[ms[t].start..ms[t].end])
  }

  /** Tokens and the pieces after them, written back one after the other from match `j` on. */
  function Rebuild(toks: seq<string>, ps: seq<string>, j: nat): string
    requires j <= |toks| < |ps|
    decreases |toks| - j
  {
    if j == |toks| then "" else toks[j] + ps[j + 1] + Rebuild(toks, ps, j + 1)
  }

  /** Writing tokens and pieces back from match `j` on gives the text from
      the start of match `j` to the end. */
  lemma {:induction false} RebuildSuffix(s: string, ms: seq<Span>, j: nat)
    requires Ordered(s, ms) && j <= |ms|
    ensures Rebuild(TokenTexts(s, ms), Pieces(s, ms), j) == if j == |ms| then "" else s[ms[j].start..]
    decreases |ms| - j
  {
    if j < |ms| {
      var toks := TokenTexts(s, ms);
      var ps := Pieces(s, ms);
      var a := ms[j].start;
      var b := ms[j].end;
      var c := if j + 1 == |ms| then |s| else ms[j + 1].start;
      if j + 1 < |ms| {
        assert ms[j].end < ms[j + 1].start;
      }
      calc {
        Rebuild(toks, ps, j);
        toks[j] + ps[j + 1] + Rebuild(toks, ps, j + 1);
        { RebuildSuffix(s, ms, j + 1); }
        s[a..b] + s[b..c] + s[c..];
        { SliceSplit(s, a, b, c); }
        s[a..];
      }
    }
  }

  lemma SliceSplit(s: string, a: nat, b: nat, c: nat)
    requires a <= b <= c <= |s|
    ensures s[a..] == s[a..b] + s[b..c] + s[c..]
  {
  }

  /** On sequences alone: the interleaved segments stand for the tokens and
      pieces written back, provided each segment stands for its token and
      the split drops only empty pieces. */
  lemma {:induction false} InterleaveSource(
    rs: seq<Content>, tokens: seq<string>, toks: seq<string>, ps: seq<string>, j: nat)
    requires j <= |rs| == |toks| && |ps| == |rs| + 1
    requires forall t :: 0 <= t < |rs| ==> SourceText(rs[t]) == toks[t]
    requires |tokens| <= |ps| && tokens == ps[..|tokens|]
    requires forall k :: |tokens| <= k < |ps| ==> ps[k] == ""
    ensures Source(Interleave(rs, tokens, j)) == Rebuild(toks, ps, j)
    decreases |rs| - j
  {
    if j < |rs| {
      var lit: seq<Content> := if |tokens| > j + 1 then [Literal(tokens[j + 1])] else [];
      var rest := Interleave(rs, tokens, j + 1);
      calc {
        Source(Interleave(rs, tokens, j));
        Source([rs[j]] + lit + rest);
        { SourceAppend([rs[j]] + lit, rest); }
        Source([rs[j]] + lit) + Source(rest);
        { SourceAppend([rs[j]], lit); }
        Source([rs[j]]) + Source(lit) + Source(rest);
        { SourceSingle(rs[j]); PieceSource(tokens, ps, j + 1); }
        toks[j] + ps[j + 1] + Source(rest);
        { InterleaveSource(rs, tokens, toks, ps, j + 1); }
        toks[j] + ps[j + 1] + Rebuild(toks, ps, j + 1);
      }
    }
  }

  /** The piece the loop appends after a token, if any, stands for the piece
      between matches, since the split drops only empty pieces. */
  lemma PieceSource(tokens: seq<string>, ps: seq<string>, k: nat)
    requires k < |ps| && |tokens| <= |ps| && tokens == ps[..|tokens|]
    requires forall i :: |tokens| <= i < |ps| ==> ps[i] == ""
    ensures Source(if |tokens| > k then [Literal(tokens[k])] else []) == ps[k]
  {
    if |tokens| > k {
      SourceSingle(Literal(tokens[k]));
    }
  }

  /** With every user filed under their own name, each resolved segment
      stands for exactly the token it came from. */
  lemma ResolvedSources(s: string, ms: seq<Span>, byName: Directory)
    requires FiledByName(byName) && Ordered(s, ms)
    ensures forall t :: 0 <= t < |ms| ==> SourceText(ResolveAll(s, ms, byName)[t]) == TokenTexts(s, ms)[t]
  {
  }

  /** A one-segment list stands for that segment's text. */
  lemma SourceSingle(c: Content)
    ensures Source([c]) == SourceText(c)
  {
    assert [c][1..] == [];
  }

  lemma PrefixSplit(s: string, k: nat)
    requires k <= |s|
    ensures s[0..k] + s[k..] == s
  {
  }

  /** A successful segmentation is the first split piece followed by the interleaving. */
  lemma SegmentUnfold(s: string, byName: Directory)
    requires !IsLoneToken(s)
    ensures Segment(s, byName).Success?
    ensures Segment(s, byName).value
      == [Literal(Split(s)[0])] + Interleave(ResolveAll(s, Matches(s), byName), Split(s), 0)
  {
    SplitEmptyIffLoneToken(s);
  }

  /** Round trip: when the directory files every user under their own name,
      writing each mention back as `@name` reproduces the original text. */
  lemma SegmentRoundTrip(s: string, byName: Directory)
    requires FiledByName(byName) && !IsLoneToken(s)
    ensures Segment(s, byName).Success?
    ensures Source(Segment(s, byName).value) == s
  {
    var ms := Matches(s);
    var ps := Pieces(s, ms);
    var tokens := Split(s);
    var rs := ResolveAll(s, ms, byName);
    var toks := TokenTexts(s, ms);
    SplitAgainstPieces(s);
    ResolvedSources(s, ms, byName);
    var k := if |ms| == 0 then |s| else ms[0].start;
    calc {
      Source(Segment(s, byName).value);
      { SegmentUnfold(s, byName); }
      Source([Literal(tokens[0])] + Interleave(rs, tokens, 0));
      { SourceAppend([Literal(tokens[0])], Interleave(rs, tokens, 0));
        SourceSingle(Literal(tokens[0])); }
      tokens[0] + Source(Interleave(rs, tokens, 0));
      { InterleaveSource(rs, tokens, toks, ps, 0); }
      ps[0] + Rebuild(toks, ps, 0);
      { RebuildSuffix(s, ms, 0); }
      s[0..k] + s[k..];
      { PrefixSplit(s, k); }
      s;
    }
  }
}

/**
 * What the two regular expressions of the requirement parser match, under the
 * semantics of Go's `regexp` package (RE2 syntax, leftmost-first matching):
 * the comment pattern `(^|\s+)#.*$` and the operator pattern
 * `(<|<=|!=|==|>=|>|~=|===)`, with `ReplaceAllString`, `FindString` and
 * `Split(s, -1)` over them.
 */
module RequirementPatterns {
  import opened Wrappers
  import opened GoStrings

  // ---------------------------------------------------------------------------
  // The comment pattern (^|\s+)#.*$
  // ---------------------------------------------------------------------------

  /** `\s` in RE2 syntax: the ASCII class [\t\n\f\r ] (no vertical tab, no Unicode spaces). */
  predicate IsRegexpSpace(c: char) {
    c == '\t' || c == '\n' || c == '\U{0C}' || c == '\r' || c == ' '
  }

  predicate AllRegexpSpace(t: string) {
    forall k :: 0 <= k < |t| ==> IsRegexpSpace(t[k])
  }

  /**
   * A match of the comment pattern that starts at `i` and takes its '#' at `j`:
   * either `^` (only at 0) or a run of `\s` from `i` to `j`, then '#', then `.*`
   * (which never crosses a '\n') up to `$`, the end of the text.
   */
  predicate CommentMatchUsing(s: string, i: nat, j: nat) {
    && i <= j < |s|
    && s[j] == '#'
    && (if j == i then i == 0 else AllRegexpSpace(s[i..j]))
    && '\n' !in s[j + 1..]
  }

  /** The comment pattern matches somewhere from `i` (a match always ends at the end of `s`). */
  ghost predicate CommentMatchAt(s: string, i: nat) {
    exists j :: CommentMatchUsing(s, i, j)
  }

  /** A '#' at which some match can put its '#'. */
  predicate HashCandidate(s: string, j: nat) {
    j < |s| && s[j] == '#' && (j == 0 || IsRegexpSpace(s[j - 1])) && '\n' !in s[j + 1..]
  }

  function FirstCandidate(s: string, j: nat): (k: nat)
    requires j <= |s|
    ensures j <= k <= |s|
    decreases |s| - j
  {
    if j == |s| || HashCandidate(s, j) then j else FirstCandidate(s, j + 1)
  }

  /** Start of the run of `\s` that ends just before `k`. */
  function RunStart(s: string, k: nat): (i: nat)
    requires k <= |s|
    ensures i <= k
    decreases k
  {
    if k > 0 && IsRegexpSpace(s[k - 1]) then RunStart(s, k - 1) else k
  }

  /** Where the leftmost match of the comment pattern starts, or |s| if it does not match. */
  function CommentStart(s: string): nat {
    var k := FirstCandidate(s, 0);
    if k == |s| then |s| else RunStart(s, k)
  }

  /** `commentRegexp.ReplaceAllString(s, "")`. */
  function StripComment(s: string): string
  {
    var k := CommentStart(s);
    assert k <= |s|;
    s[..k]
  }

  lemma {:induction false} FirstCandidateIsFirst(s: string, j: nat)
    requires j <= |s|
    ensures var k := FirstCandidate(s, j);
      (k < |s| ==> HashCandidate(s, k)) && forall m :: j <= m < k ==> !HashCandidate(s, m)
    decreases |s| - j
  {
    if j < |s| && !HashCandidate(s, j) {
      FirstCandidateIsFirst(s, j + 1);
    }
  }

  lemma {:induction false} RunStartIsMaximalRun(s: string, k: nat)
    requires k <= |s|
    ensures var i := RunStart(s, k);
      AllRegexpSpace(s[i..k]) && (i == 0 || !IsRegexpSpace(s[i - 1]))
    decreases k
  {
    if k > 0 && IsRegexpSpace(s[k - 1]) {
      RunStartIsMaximalRun(s, k - 1);
      var i := RunStart(s, k - 1);
      assert s[i..k] == s[i..k - 1] + [s[k - 1]];
    }
  }

  lemma SpaceInRun(t: string, p: nat)
    requires AllRegexpSpace(t) && p < |t|
    ensures IsRegexpSpace(t[p])
  {
  }

  lemma {:induction false} RunStartIsLeast(s: string, i: nat, k: nat)
    requires i <= k <= |s|
    requires forall p :: i <= p < k ==> IsRegexpSpace(s[p])
    ensures RunStart(s, k) <= i
    decreases k
  {
    if k > i {
      RunStartIsLeast(s, i, k - 1);
    }
  }

  /** No match of the comment pattern starts before CommentStart. */
  lemma MatchStartsAtOrAfterCommentStart(s: string, i: nat, j: nat)
    requires CommentMatchUsing(s, i, j)
    ensures CommentStart(s) <= i
  {
    var h := FirstCandidate(s, 0);
    FirstCandidateIsFirst(s, 0);
    if j != i {
      forall p | i <= p < j
        ensures IsRegexpSpace(s[p])
      {
        SpaceInRun(s[i..j], p - i);
      }
    }
    assert HashCandidate(s, j);
    assert h <= j;
    if j == h {
      RunStartIsLeast(s, i, h);
    }
  }

  /**
   * StripComment deletes exactly the leftmost match of the comment pattern:
   * the kept text is `s[..k]`, a match starts at `k` when anything is
   * deleted, and no match starts before `k`.
   */
  lemma StripCommentRemovesLeftmostMatch(s: string)
    ensures var k := CommentStart(s);
      && StripComment(s) == s[..k]
      && (k < |s| ==> CommentMatchAt(s, k))
      && (forall i :: 0 <= i < k ==> !CommentMatchAt(s, i))
  {
    var h := FirstCandidate(s, 0);
    FirstCandidateIsFirst(s, 0);
    var k := CommentStart(s);
    if h < |s| {
      RunStartIsMaximalRun(s, h);
      if k == h {
        assert h == 0;
      }
      assert CommentMatchUsing(s, k, h);
    }
    forall i | 0 <= i < k
      ensures !CommentMatchAt(s, i)
    {
      if CommentMatchAt(s, i) {
        var j: nat :| CommentMatchUsing(s, i, j);
        MatchStartsAtOrAfterCommentStart(s, i, j);
      }
    }
  }

  /** A comment at the very start of the line leaves nothing. */
  lemma LeadingHashStripsAll(s: string)
    requires |s| > 0 && s[0] == '#' && '\n' !in s
    ensures StripComment(s) == ""
  {
    assert HashCandidate(s, 0);
  }

  /** A '#' glued to the text before it (`a==1#x`) does not start a comment. */
  lemma GluedHashIsKept(s: string)
    requires '#' in s && s[0] != '#'
    requires forall j :: 0 < j < |s| && s[j] == '#' ==> !IsRegexpSpace(s[j - 1])
    ensures StripComment(s) == s
  {
    FirstCandidateIsFirst(s, 0);
  }

  /** A text without '#' has no comment. */
  lemma NoHashKept(s: string)
    requires '#' !in s
    ensures StripComment(s) == s
  {
    FirstCandidateIsFirst(s, 0);
  }

  // ---------------------------------------------------------------------------
  // The operator pattern (<|<=|!=|==|>=|>|~=|===)
  // ---------------------------------------------------------------------------

  /** The alternatives of the operator pattern, in the order the pattern lists them. */
  const OperatorAlternatives: seq<string> := ["<", "<=", "!=", "==", ">=", ">", "~=", "==="]

  /**
   * Leftmost-first alternation: the first alternative, in list order from
   * index `k`, that matches at `i`.
   */
  function FirstAlternative(s: string, i: nat, alts: seq<string>, k: nat): string
    requires k <= |alts|
    decreases |alts| - k
  {
    if k == |alts| then ""
    else if OccursAt(s, i, alts[k]) then alts[k]
    else FirstAlternative(s, i, alts, k + 1)
  }

  lemma OccursAtShort(s: string, i: nat, t: string)
    requires 1 <= |t| <= 3
    ensures OccursAt(s, i, t) <==>
      && i + |t| <= |s| && s[i] == t[0]
      && (|t| >= 2 ==> s[i + 1] == t[1])
      && (|t| == 3 ==> s[i + 2] == t[2])
  {
    if i + |t| <= |s| && s[i] == t[0] && (|t| >= 2 ==> s[i + 1] == t[1]) && (|t| == 3 ==> s[i + 2] == t[2]) {
      assert s[i..i + |t|] == t;
    }
  }

  /** A character some alternative of the operator pattern starts with. */
  predicate IsOperatorChar(c: char) {
    c == '<' || c == '>' || c == '=' || c == '!' || c == '~'
  }

  /**
   * Length of the token the pattern matches at `i` (0 when none does): the
   * first alternative that matches there, "<" before "<=", "==" before "===",
   * ">=" before ">".
   */
  function OperatorWidth(s: string, i: nat): (w: nat)
    ensures w <= 2 && (w > 0 ==> i + w <= |s|)
  {
    if i < |s| && s[i] == '<' then 1
    else if i + 1 < |s| && s[i] == '!' && s[i + 1] == '=' then 2
    else if i + 1 < |s| && s[i] == '=' && s[i + 1] == '=' then 2
    else if i + 1 < |s| && s[i] == '>' && s[i + 1] == '=' then 2
    else if i < |s| && s[i] == '>' then 1
    else if i + 1 < |s| && s[i] == '~' && s[i + 1] == '=' then 2
    else 0
  }

  /** The operator token the pattern matches at `i`, or "" when none matches there. */
  function OperatorAt(s: string, i: nat): string {
    var w := OperatorWidth(s, i);
    if w == 0 then "" else s[i..i + w]
  }

  /** OperatorAt is the pattern's own alternation, taken in the order written. */
  lemma OperatorAtIsFirstAlternative(s: string, i: nat)
    ensures OperatorAt(s, i) == FirstAlternative(s, i, OperatorAlternatives, 0)
  {
    var alts := OperatorAlternatives;
    forall k | 0 <= k < |alts|
      ensures OccursAt(s, i, alts[k]) <==>
        && i + |alts[k]| <= |s| && s[i] == alts[k][0]
        && (|alts[k]| >= 2 ==> s[i + 1] == alts[k][1])
        && (|alts[k]| == 3 ==> s[i + 2] == alts[k][2])
    {
      OccursAtShort(s, i, alts[k]);
    }
  }

  /**
   * An earlier, shorter alternative wins: at "<=" the pattern reports "<",
   * so "<=" is never reported, and at "===" it reports "==".
   */
  lemma EarlierAlternativeWins(s: string, i: nat)
    ensures OccursAt(s, i, "<=") ==> FirstAlternative(s, i, OperatorAlternatives, 0) == "<"
    ensures OccursAt(s, i, "===") ==> FirstAlternative(s, i, OperatorAlternatives, 0) == "=="
  {
    OperatorAtIsFirstAlternative(s, i);
    OccursAtShort(s, i, "<=");
    OccursAtShort(s, i, "===");
  }

  /** Leftmost operator position at or after `from`. */
  function FindOperatorFrom(s: string, from: nat): (m: Option<nat>)
    requires from <= |s|
    ensures m.Some? ==> from <= m.value < |s| && OperatorWidth(s, m.value) > 0
    decreases |s| - from
  {
    if from == |s| then None
    else if OperatorWidth(s, from) > 0 then Some(from)
    else FindOperatorFrom(s, from + 1)
  }

  lemma {:induction false} FindOperatorIsLeftmost(s: string, from: nat)
    requires from <= |s|
    ensures match FindOperatorFrom(s, from)
      case None => forall p :: from <= p < |s| ==> OperatorWidth(s, p) == 0
      case Some(m) => forall p :: from <= p < m ==> OperatorWidth(s, p) == 0
    decreases |s| - from
  {
    if from < |s| && OperatorWidth(s, from) == 0 {
      FindOperatorIsLeftmost(s, from + 1);
    }
  }

  lemma {:induction false} FindOperatorFindsFirst(s: string, from: nat, m: nat)
    requires from <= m < |s| && OperatorWidth(s, m) > 0
    requires forall p :: from <= p < m ==> OperatorWidth(s, p) == 0
    ensures FindOperatorFrom(s, from) == Some(m)
    decreases m - from
  {
    if from < m {
      FindOperatorFindsFirst(s, from + 1, m);
    }
  }

  lemma {:induction false} FindOperatorFindsNone(s: string, from: nat)
    requires from <= |s|
    requires forall p :: from <= p < |s| ==> OperatorWidth(s, p) == 0
    ensures FindOperatorFrom(s, from) == None
    decreases |s| - from
  {
    if from < |s| {
      FindOperatorFindsNone(s, from + 1);
    }
  }

  /** `comparisonRegexp.FindString(s)`: the leftmost match, "" when there is none. */
  function FindString(s: string): string {
    match FindOperatorFrom(s, 0)
    case None => ""
    case Some(m) => OperatorAt(s, m)
  }

  /** The pieces of `Split(s, -1)` from `from` on: the text between successive matches. */
  function SplitFrom(s: string, from: nat): (parts: seq<string>)
    requires from <= |s|
    ensures |parts| >= 1
    decreases |s| - from
  {
    match FindOperatorFrom(s, from)
    case None => [s[from..]]
    case Some(m) => [s[from..m]] + SplitFrom(s, m + OperatorWidth(s, m))
  }

  /** The matched operator tokens from `from` on, in order. */
  function TokensFrom(s: string, from: nat): seq<string>
    requires from <= |s|
    decreases |s| - from
  {
    match FindOperatorFrom(s, from)
    case None => []
    case Some(m) => [OperatorAt(s, m)] + TokensFrom(s, m + OperatorWidth(s, m))
  }

  /** `comparisonRegexp.Split(s, -1)`. */
  function Split(s: string): seq<string> {
    SplitFrom(s, 0)
  }

  /** parts[0] + tokens[0] + parts[1] + ... + parts[n]. */
  function Interleave(parts: seq<string>, tokens: seq<string>): string
    requires |parts| == |tokens| + 1
    decreases |tokens|
  {
    if |tokens| == 0 then parts[0]
    else parts[0] + tokens[0] + Interleave(parts[1..], tokens[1..])
  }

  lemma SplitStep(s: string, from: nat, m: nat)
    requires from <= |s| && FindOperatorFrom(s, from) == Some(m)
    ensures SplitFrom(s, from) == [s[from..m]] + SplitFrom(s, m + OperatorWidth(s, m))
    ensures TokensFrom(s, from) == [OperatorAt(s, m)] + TokensFrom(s, m + OperatorWidth(s, m))
  {
    SplitPieceStep(s, from, m);
    SplitTokenStep(s, from, m);
  }

  lemma SplitPieceStep(s: string, from: nat, m: nat)
    requires from <= |s| && FindOperatorFrom(s, from) == Some(m)
    ensures SplitFrom(s, from) == [s[from..m]] + SplitFrom(s, m + OperatorWidth(s, m))
  {
  }

  lemma SplitTokenStep(s: string, from: nat, m: nat)
    requires from <= |s| && FindOperatorFrom(s, from) == Some(m)
    ensures TokensFrom(s, from) == [OperatorAt(s, m)] + TokensFrom(s, m + OperatorWidth(s, m))
  {
  }

  lemma SplitStepLast(s: string, from: nat)
    requires from <= |s| && FindOperatorFrom(s, from) == None
    ensures SplitFrom(s, from) == [s[from..]]
  {
  }

  lemma TokensLast(s: string, from: nat)
    requires from <= |s| && FindOperatorFrom(s, from) == None
    ensures TokensFrom(s, from) == []
  {
  }

  /** Each piece runs from where the search starts up to the next match, or the end. */
  lemma FirstPieceShape(s: string, from: nat)
    requires from <= |s|
    ensures var v := SplitFrom(s, from)[0];
      && from + |v| <= |s| && s[from..from + |v|] == v
      && (forall p :: from <= p < from + |v| ==> OperatorWidth(s, p) == 0)
      && (from + |v| == |s| || OperatorWidth(s, from + |v|) > 0)
  {
    FindOperatorIsLeftmost(s, from);
    match FindOperatorFrom(s, from)
    case None =>
      SplitStepLast(s, from);
    case Some(m) =>
      SplitPieceStep(s, from, m);
  }

  lemma SliceSplit(s: string, a: nat, b: nat)
    requires a <= b <= |s|
    ensures s[a..] == s[a..b] + s[b..]
  {
  }

  lemma InterleaveCons(first: string, parts: seq<string>, token: string, tokens: seq<string>)
    requires |parts| == |tokens| + 1
    ensures Interleave([first] + parts, [token] + tokens) == first + token + Interleave(parts, tokens)
  {
    assert ([first] + parts)[1..] == parts;
    assert ([token] + tokens)[1..] == tokens;
  }

  /** Split loses nothing: the pieces, with the matched tokens put back between them, are the text. */
  lemma {:induction false} SplitRoundTrip(s: string, from: nat)
    requires from <= |s|
    ensures |SplitFrom(s, from)| == |TokensFrom(s, from)| + 1
    ensures Interleave(SplitFrom(s, from), TokensFrom(s, from)) == s[from..]
    decreases |s| - from
  {
    match FindOperatorFrom(s, from)
    case None =>
      SplitStepLast(s, from);
      TokensLast(s, from);
    case Some(m) =>
      SplitRoundTrip(s, m + OperatorWidth(s, m));
      RoundTripAtMatch(s, from, m);
  }

  /** The step of the round trip at a match, given the round trip after it. */
  lemma RoundTripAtMatch(s: string, from: nat, m: nat)
    requires from <= |s| && FindOperatorFrom(s, from) == Some(m)
    requires var next := m + OperatorWidth(s, m);
      && |SplitFrom(s, next)| == |TokensFrom(s, next)| + 1
      && Interleave(SplitFrom(s, next), TokensFrom(s, next)) == s[next..]
    ensures |SplitFrom(s, from)| == |TokensFrom(s, from)| + 1
    ensures Interleave(SplitFrom(s, from), TokensFrom(s, from)) == s[from..]
  {
    var next := m + OperatorWidth(s, m);
    var parts, tokens := SplitFrom(s, next), TokensFrom(s, next);
    SplitStep(s, from, m);
    assert OperatorAt(s, m) == s[m..next];
    RoundTripStep(s, from, m, next, parts, tokens);
  }

  lemma RoundTripStep(s: string, from: nat, m: nat, next: nat, rest: seq<string>, restTokens: seq<string>)
    requires from <= m <= next <= |s|
    requires |rest| == |restTokens| + 1 && Interleave(rest, restTokens) == s[next..]
    ensures Interleave([s[from..m]] + rest, [s[m..next]] + restTokens) == s[from..]
  {
    InterleaveCons(s[from..m], rest, s[m..next], restTokens);
    SliceSplit(s, from, m);
    SliceSplit(s, m, next);
  }
}

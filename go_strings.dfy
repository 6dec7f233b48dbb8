/**
 * The parts of Go's `strings` and `unicode` packages that the requirement
 * parser and the path reconciler use, on strings seen as sequences of runes.
 */
module GoStrings {

  /** `unicode.IsSpace`: the Latin-1 spaces and the White_Space runes above Latin-1. */
  predicate IsSpace(c: char) {
    || c == '\t' || c == '\n' || c == '\U{0B}' || c == '\U{0C}' || c == '\r' || c == ' '
    || c == '\U{85}' || c == '\U{A0}'
    || c == '\U{1680}' || ('\U{2000}' <= c <= '\U{200A}')
    || c == '\U{2028}' || c == '\U{2029}' || c == '\U{202F}' || c == '\U{205F}' || c == '\U{3000}'
  }

  predicate AllSpace(t: string) {
    forall k :: 0 <= k < |t| ==> IsSpace(t[k])
  }

  function TrimLeft(s: string): string
    decreases |s|
  {
    if |s| > 0 && IsSpace(s[0]) then TrimLeft(s[1..]) else s
  }

  function TrimRight(s: string): string
    decreases |s|
  {
    if |s| > 0 && IsSpace(s[|s| - 1]) then TrimRight(s[..|s| - 1]) else s
  }

  /** `strings.TrimSpace`: drop leading and trailing white space. */
  function TrimSpace(s: string): string {
    TrimRight(TrimLeft(s))
  }

  lemma {:induction false} TrimLeftShape(s: string)
    ensures |TrimLeft(s)| <= |s|
    ensures TrimLeft(s) == s[|s| - |TrimLeft(s)|..]
    ensures AllSpace(s[..|s| - |TrimLeft(s)|])
    ensures TrimLeft(s) == [] || !IsSpace(TrimLeft(s)[0])
    decreases |s|
  {
    if |s| > 0 && IsSpace(s[0]) {
      TrimLeftShape(s[1..]);
      var r := TrimLeft(s[1..]);
      assert s[1..][|s| - 1 - |r|..] == s[|s| - |r|..];
      assert forall k :: 1 <= k < |s| - |r| ==> s[k] == s[1..][..|s| - 1 - |r|][k - 1];
    }
  }

  lemma {:induction false} TrimRightShape(s: string)
    ensures |TrimRight(s)| <= |s|
    ensures TrimRight(s) == s[..|TrimRight(s)|]
    ensures AllSpace(s[|TrimRight(s)|..])
    ensures TrimRight(s) == [] || !IsSpace(TrimRight(s)[|TrimRight(s)| - 1])
    decreases |s|
  {
    if |s| > 0 && IsSpace(s[|s| - 1]) {
      var t := s[..|s| - 1];
      TrimRightShape(t);
      var r := TrimRight(t);
      assert t[..|r|] == s[..|r|];
      assert forall k :: |r| <= k < |s| - 1 ==> s[k] == t[|r|..][k - |r|];
    }
  }

  /**
   * TrimSpace cuts the string into white space, the result and white space,
   * and the result neither starts nor ends with white space.
   */
  lemma TrimSpaceShape(s: string)
    ensures var r := TrimSpace(s);
      exists i :: 0 <= i <= |s| - |r| && s[i..i + |r|] == r && AllSpace(s[..i]) && AllSpace(s[i + |r|..])
    ensures var r := TrimSpace(s); r == [] || (!IsSpace(r[0]) && !IsSpace(r[|r| - 1]))
  {
    TrimLeftShape(s);
    var l := TrimLeft(s);
    TrimRightShape(l);
    var r := TrimRight(l);
    var i := |s| - |l|;
    assert s[i..i + |r|] == l[..|r|];
    assert s[i + |r|..] == l[|r|..];
  }

  /** `s` has `pat` starting at index `i`. */
  predicate OccursAt(s: string, i: nat, pat: string) {
    i + |pat| <= |s| && s[i..i + |pat|] == pat
  }

  /** `strings.Contains`. */
  ghost predicate Contains(s: string, pat: string) {
    exists i :: 0 <= i <= |s| && OccursAt(s, i, pat)
  }

  /** `strings.HasPrefix`. */
  predicate HasPrefix(s: string, prefix: string) {
    |prefix| <= |s| && s[..|prefix|] == prefix
  }

  /**
   * `strings.ReplaceAll(s, pat, "")` for a non-empty `pat`: every
   * non-overlapping occurrence, found from the left, is deleted.
   */
  function RemoveAll(s: string, pat: string): (r: string)
    requires |pat| > 0
    ensures |r| <= |s|
    decreases |s|
  {
    if |s| < |pat| then s
    else if s[..|pat|] == pat then RemoveAll(s[|pat|..], pat)
    else [s[0]] + RemoveAll(s[1..], pat)
  }

  /** Removing leaves the string as it was exactly when there was nothing to remove. */
  lemma {:induction false} RemoveAllUnchangedIff(s: string, pat: string)
    requires |pat| > 0
    ensures RemoveAll(s, pat) == s <==> !Contains(s, pat)
    decreases |s|
  {
    if |s| < |pat| {
      assert forall i :: 0 <= i <= |s| ==> !OccursAt(s, i, pat);
    } else if s[..|pat|] == pat {
      assert OccursAt(s, 0, pat);
    } else {
      RemoveAllUnchangedIff(s[1..], pat);
      assert !OccursAt(s, 0, pat);
      forall i | 1 <= i <= |s|
        ensures OccursAt(s, i, pat) <==> OccursAt(s[1..], i - 1, pat)
      {
        if i + |pat| <= |s| {
          assert s[i..i + |pat|] == s[1..][i - 1..i - 1 + |pat|];
        }
      }
      if Contains(s, pat) {
        var i :| 0 <= i <= |s| && OccursAt(s, i, pat);
        assert OccursAt(s[1..], i - 1, pat);
      }
      if Contains(s[1..], pat) {
        var i :| 0 <= i <= |s[1..]| && OccursAt(s[1..], i, pat);
        assert OccursAt(s, i + 1, pat);
      }
    }
  }

  /** A prefix in which no occurrence starts is kept as it is. */
  lemma {:induction false} RemoveAllKeepsPrefix(a: string, b: string, pat: string)
    requires |pat| > 0
    requires forall i :: 0 <= i < |a| ==> !OccursAt(a + b, i, pat)
    ensures RemoveAll(a + b, pat) == a + RemoveAll(b, pat)
    decreases |a|
  {
    if |a| > 0 {
      var s := a + b;
      assert !OccursAt(s, 0, pat);
      assert s[1..] == a[1..] + b;
      forall i | 0 <= i < |a[1..]|
        ensures !OccursAt(a[1..] + b, i, pat)
      {
        assert !OccursAt(s, i + 1, pat);
        if i + |pat| <= |s[1..]| {
          assert s[1..][i..i + |pat|] == s[i + 1..i + 1 + |pat|];
        }
      }
      RemoveAllKeepsPrefix(a[1..], b, pat);
      if |s| >= |pat| {
        assert s[..|pat|] != pat;
      }
      assert [a[0]] + (a[1..] + RemoveAll(b, pat)) == a + RemoveAll(b, pat);
    } else {
      assert a + b == b;
    }
  }

  /** An occurrence at the front is deleted and removal goes on after it. */
  lemma RemoveAllAtFront(pat: string, b: string)
    requires |pat| > 0
    ensures RemoveAll(pat + b, pat) == RemoveAll(b, pat)
  {
    assert (pat + b)[..|pat|] == pat;
    assert (pat + b)[|pat|..] == b;
  }
}

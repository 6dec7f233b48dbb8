/**
 * The requirements-file parser: `Requirement`, `Specifier` and
 * `ParseRequirements`, which reads a manifest with
 * `bufio.Reader.ReadString('\n')` and parses each line it gets.
 */
module Requirements {
  import opened Wrappers
  import opened GoStrings
  import opened RequirementPatterns

  datatype Specifier = Specifier(comparison: string, version: string)

  datatype Requirement = Requirement(name: string, specification: Specifier)

  datatype ParseError =
    | OpenFailed                                    // os.Open failed
    | Unsupported(comparison: string, line: string) // a line whose operator is not "=="

  /** The manifest as the parser finds it: a file that cannot be opened, or its text. */
  datatype Manifest = Unopenable | Manifest(text: string)

  /** What the parser returns: the requirements collected so far and the error, if any. */
  datatype Parsed = Parsed(reqs: seq<Requirement>, err: Option<ParseError>)

  /** What one line contributes. */
  datatype LineOutcome = Blank | Accepted(req: Requirement) | Rejected(error: ParseError)

  // ---------------------------------------------------------------------------
  // One line
  // ---------------------------------------------------------------------------

  /** The per-line clean-up: TrimSpace, then the comment is replaced by "". */
  function CleanLine(line: string): string {
    StripComment(TrimSpace(line))
  }

  /** One line: skipped when empty, otherwise the operator is found and the line is split on it. */
  function ParseLine(line: string): LineOutcome {
    var c := CleanLine(line);
    if c == "" then Blank
    else
      var comparison := FindString(c);
      if comparison != "==" then Rejected(Unsupported(comparison, c))
      else
        var parts := Split(c);
        Accepted(Requirement(parts[0], Specifier(comparison, parts[1])))
  }

  /**
   * `c` reads as `name`, a leftmost "==" match at `m`, then `version` up to the
   * next operator match or the end of `c`.
   */
  predicate CutsAt(c: string, m: nat, name: string, version: string) {
    && m + 2 + |version| <= |c|
    && c[..m] == name
    && OperatorAt(c, m) == "==" && c[m..m + 2] == "=="
    && c[m + 2..m + 2 + |version|] == version
    && (forall p :: 0 <= p < m ==> OperatorWidth(c, p) == 0)
    && (forall p :: m + 2 <= p < m + 2 + |version| ==> OperatorWidth(c, p) == 0)
    && (m + 2 + |version| == |c| || OperatorWidth(c, m + 2 + |version|) > 0)
  }

  /** Splitting a text whose leftmost operator is "==" cuts it around that match. */
  lemma EqualitySplitShape(c: string)
    requires FindString(c) == "=="
    ensures exists m :: CutsAt(c, m, Split(c)[0], Split(c)[1])
  {
    var m := FindOperatorFrom(c, 0).value;
    FindOperatorIsLeftmost(c, 0);
    FirstPieceShape(c, m + 2);
    var version := SplitFrom(c, m + 2)[0];
    CutsAtFromPieces(c, m, version);
    SplitPieceStep(c, 0, m);
    assert c[0..m] == c[..m];
    assert Split(c)[0] == c[..m] && Split(c)[1] == version;
  }

  lemma CutsAtFromPieces(c: string, m: nat, version: string)
    requires m + 2 + |version| <= |c| && OperatorAt(c, m) == "=="
    requires c[m + 2..m + 2 + |version|] == version
    requires forall p :: 0 <= p < m ==> OperatorWidth(c, p) == 0
    requires forall p :: m + 2 <= p < m + 2 + |version| ==> OperatorWidth(c, p) == 0
    requires m + 2 + |version| == |c| || OperatorWidth(c, m + 2 + |version|) > 0
    ensures CutsAt(c, m, c[..m], version)
  {
  }

  /**
   * An accepted line: the comparison is "==", the name is the text before the
   * leftmost operator match and the version the text up to the next match (or
   * the end), neither of them trimmed.
   */
  lemma AcceptedLineShape(line: string)
    requires ParseLine(line).Accepted?
    ensures var c, r := CleanLine(line), ParseLine(line).req;
      && c != ""
      && r.specification.comparison == "=="
      && exists m :: CutsAt(c, m, r.name, r.specification.version)
  {
    EqualitySplitShape(CleanLine(line));
  }

  /**
   * A rejected line names the leftmost operator match of the cleaned line, or ""
   * when the line has no operator at all.
   */
  lemma RejectedLineShape(line: string)
    requires ParseLine(line).Rejected?
    ensures var c, e := CleanLine(line), ParseLine(line).error;
      && e.Unsupported? && e.line == c && c != "" && e.comparison != "=="
      && (e.comparison == "" <==> forall p :: 0 <= p < |c| ==> OperatorWidth(c, p) == 0)
      && (e.comparison != "" ==> exists m :: 0 <= m < |c| && OperatorAt(c, m) == e.comparison
                                   && forall p :: 0 <= p < m ==> OperatorWidth(c, p) == 0)
  {
    var c := CleanLine(line);
    FindOperatorIsLeftmost(c, 0);
    match FindOperatorFrom(c, 0)
    case None =>
    case Some(m) =>
      assert OperatorWidth(c, m) > 0;
  }

  /** A line is blank exactly when nothing is left of it once trimmed and stripped of its comment. */
  lemma BlankLineIff(line: string)
    ensures ParseLine(line).Blank? <==> CleanLine(line) == ""
  {
  }

  // ---------------------------------------------------------------------------
  // Lines of a text, as successive ReadString('\n') calls return them
  // ---------------------------------------------------------------------------

  /** Index of the next '\n' at or after `pos`, or |text| (ReadString then reports io.EOF). */
  function NextNewline(text: string, pos: nat): (k: nat)
    requires pos <= |text|
    ensures pos <= k <= |text|
    ensures k < |text| ==> text[k] == '\n'
    decreases |text| - pos
  {
    if pos == |text| || text[pos] == '\n' then pos else NextNewline(text, pos + 1)
  }

  lemma {:induction false} NextNewlineIsFirst(text: string, pos: nat)
    requires pos <= |text|
    ensures forall p :: pos <= p < NextNewline(text, pos) ==> text[p] != '\n'
    decreases |text| - pos
  {
    if pos < |text| && text[pos] != '\n' {
      NextNewlineIsFirst(text, pos + 1);
    }
  }

  /** The complete lines from `pos` on, each with its '\n'. */
  function LinesFrom(text: string, pos: nat): seq<string>
    requires pos <= |text|
    decreases |text| - pos
  {
    var nl := NextNewline(text, pos);
    if nl == |text| then [] else [text[pos..nl + 1]] + LinesFrom(text, nl + 1)
  }

  lemma SliceOfConcatRight(a: string, b: string, i: nat, j: nat)
    requires i <= j <= |b|
    ensures (a + b)[|a| + i..|a| + j] == b[i..j]
  {
    forall p | 0 <= p < j - i
      ensures (a + b)[|a| + i..|a| + j][p] == b[i..j][p]
    {
      assert (a + b)[|a| + i + p] == b[i + p];
    }
  }

  lemma SliceOfConcatLeft(a: string, b: string, i: nat, j: nat)
    requires i <= j <= |a|
    ensures (a + b)[i..j] == a[i..j]
  {
    forall p | 0 <= p < j - i
      ensures (a + b)[i..j][p] == a[i..j][p]
    {
      assert (a + b)[i + p] == a[i + p];
    }
  }

  lemma LinesFromStep(text: string, pos: nat)
    requires pos <= |text| && NextNewline(text, pos) < |text|
    ensures LinesFrom(text, pos) ==
      [text[pos..NextNewline(text, pos) + 1]] + LinesFrom(text, NextNewline(text, pos) + 1)
  {
  }

  lemma LinesFromEnd(text: string, pos: nat)
    requires pos <= |text| && NextNewline(text, pos) == |text|
    ensures LinesFrom(text, pos) == []
  {
  }

  /** The text after the last '\n' from `pos` on: it comes back together with io.EOF. */
  function TailFrom(text: string, pos: nat): string
    requires pos <= |text|
    decreases |text| - pos
  {
    var nl := NextNewline(text, pos);
    if nl == |text| then text[pos..] else TailFrom(text, nl + 1)
  }

  function Lines(text: string): seq<string> {
    LinesFrom(text, 0)
  }

  function Tail(text: string): string {
    TailFrom(text, 0)
  }

  function Concat(lines: seq<string>): string {
    if lines == [] then "" else lines[0] + Concat(lines[1..])
  }

  /** A complete line: ends with '\n' and holds no other. */
  predicate IsLine(line: string) {
    |line| > 0 && line[|line| - 1] == '\n' && '\n' !in line[..|line| - 1]
  }

  lemma {:induction false} LinesFromRoundTrip(text: string, pos: nat)
    requires pos <= |text|
    ensures Concat(LinesFrom(text, pos)) + TailFrom(text, pos) == text[pos..]
    decreases |text| - pos
  {
    var nl := NextNewline(text, pos);
    if nl < |text| {
      LinesFromRoundTrip(text, nl + 1);
      LinesRoundTripStep(text, pos, nl);
    }
  }

  lemma LinesRoundTripStep(text: string, pos: nat, nl: nat)
    requires pos <= nl < |text| && NextNewline(text, pos) == nl
    requires Concat(LinesFrom(text, nl + 1)) + TailFrom(text, nl + 1) == text[nl + 1..]
    ensures Concat(LinesFrom(text, pos)) + TailFrom(text, pos) == text[pos..]
  {
    LinesFromStep(text, pos);
    TailFromStep(text, pos);
    JoinLine(text, pos, nl, LinesFrom(text, nl + 1), TailFrom(text, nl + 1));
  }

  /** Putting one line back in front of the text that follows it. */
  lemma JoinLine(text: string, pos: nat, nl: nat, rest: seq<string>, tail: string)
    requires pos <= nl < |text| && Concat(rest) + tail == text[nl + 1..]
    ensures Concat([text[pos..nl + 1]] + rest) + tail == text[pos..]
  {
    var line := text[pos..nl + 1];
    ConcatCons(line, rest);
    Associate(line, Concat(rest), tail);
    SliceJoin(text, pos, nl + 1);
  }

  lemma TailFromStep(text: string, pos: nat)
    requires pos <= |text| && NextNewline(text, pos) < |text|
    ensures TailFrom(text, pos) == TailFrom(text, NextNewline(text, pos) + 1)
  {
  }

  lemma ConcatCons(line: string, rest: seq<string>)
    ensures Concat([line] + rest) == line + Concat(rest)
  {
    assert ([line] + rest)[1..] == rest;
  }

  lemma Associate(a: string, b: string, c: string)
    ensures a + b + c == a + (b + c)
  {
  }

  lemma SliceJoin(text: string, i: nat, j: nat)
    requires i <= j <= |text|
    ensures text[i..j] + text[j..] == text[i..]
  {
  }

  lemma {:induction false} LinesFromAreLines(text: string, pos: nat)
    requires pos <= |text|
    ensures forall k :: 0 <= k < |LinesFrom(text, pos)| ==> IsLine(LinesFrom(text, pos)[k])
    decreases |text| - pos
  {
    var nl := NextNewline(text, pos);
    if nl < |text| {
      LinesFromAreLines(text, nl + 1);
      NextNewlineIsFirst(text, pos);
      var line := text[pos..nl + 1];
      assert line[..|line| - 1] == text[pos..nl];
      assert IsLine(line);
      assert LinesFrom(text, pos) == [line] + LinesFrom(text, nl + 1);
    }
  }

  lemma {:induction false} TailFromHasNoNewline(text: string, pos: nat)
    requires pos <= |text|
    ensures '\n' !in TailFrom(text, pos)
    decreases |text| - pos
  {
    var nl := NextNewline(text, pos);
    if nl < |text| {
      TailFromHasNoNewline(text, nl + 1);
    } else {
      NextNewlineIsFirst(text, pos);
    }
  }

  /**
   * The read loop sees the whole text: its complete lines, in order, followed
   * by an unterminated tail that holds no '\n' and is never parsed.
   */
  lemma LinesRoundTrip(text: string)
    ensures Concat(Lines(text)) + Tail(text) == text
    ensures forall k :: 0 <= k < |Lines(text)| ==> IsLine(Lines(text)[k])
    ensures '\n' !in Tail(text)
  {
    LinesFromRoundTrip(text, 0);
    LinesFromAreLines(text, 0);
    TailFromHasNoNewline(text, 0);
  }

  /** `text` is empty or ends with a line break. */
  predicate Terminated(text: string) {
    text == [] || text[|text| - 1] == '\n'
  }

  /** The next '\n' at or after `pos` is the first one. */
  lemma {:induction false} NewlineAt(text: string, pos: nat, k: nat)
    requires pos <= k < |text| && text[k] == '\n'
    requires forall p :: pos <= p < k ==> text[p] != '\n'
    ensures NextNewline(text, pos) == k
    decreases k - pos
  {
    if pos < k {
      NewlineAt(text, pos + 1, k);
    }
  }

  lemma {:induction false} NewlineShift(a: string, b: string, k: nat)
    requires k <= |b|
    ensures NextNewline(a + b, |a| + k) == |a| + NextNewline(b, k)
    decreases |b| - k
  {
    if k < |b| && b[k] != '\n' {
      NewlineShift(a, b, k + 1);
    }
  }

  lemma {:induction false} LinesShift(a: string, b: string, k: nat)
    requires k <= |b|
    ensures LinesFrom(a + b, |a| + k) == LinesFrom(b, k)
    decreases |b| - k
  {
    NewlineShift(a, b, k);
    var nl := NextNewline(b, k);
    if nl < |b| {
      LinesShift(a, b, nl + 1);
      LinesShiftStep(a, b, k, nl);
    } else {
      LinesFromEnd(a + b, |a| + k);
      LinesFromEnd(b, k);
    }
  }

  lemma LinesShiftStep(a: string, b: string, k: nat, nl: nat)
    requires k <= nl < |b| && NextNewline(b, k) == nl && NextNewline(a + b, |a| + k) == |a| + nl
    requires LinesFrom(a + b, |a| + (nl + 1)) == LinesFrom(b, nl + 1)
    ensures LinesFrom(a + b, |a| + k) == LinesFrom(b, k)
  {
    LinesFromStep(a + b, |a| + k);
    LinesFromStep(b, k);
    SliceOfConcatRight(a, b, k, nl + 1);
  }

  lemma {:induction false} LinesFromConcat(a: string, b: string, pos: nat)
    requires Terminated(a) && pos <= |a|
    ensures LinesFrom(a + b, pos) == LinesFrom(a, pos) + LinesFrom(b, 0)
    decreases |a| - pos
  {
    if pos < |a| {
      var nl := NextNewline(a, pos);
      assert a[|a| - 1] == '\n';
      NextNewlineIsFirst(a, pos);
      assert nl < |a|;
      NewlineAt(a + b, pos, nl);
      LinesFromConcat(a, b, nl + 1);
      LinesFromConcatStep(a, b, pos, nl);
    } else {
      LinesShift(a, b, 0);
    }
  }

  lemma LinesFromConcatStep(a: string, b: string, pos: nat, nl: nat)
    requires pos <= nl < |a| && NextNewline(a, pos) == nl && NextNewline(a + b, pos) == nl
    requires LinesFrom(a + b, nl + 1) == LinesFrom(a, nl + 1) + LinesFrom(b, 0)
    ensures LinesFrom(a + b, pos) == LinesFrom(a, pos) + LinesFrom(b, 0)
  {
    LinesFromStep(a + b, pos);
    LinesFromStep(a, pos);
    SliceOfConcatLeft(a, b, pos, nl + 1);
    var line := a[pos..nl + 1];
    assert [line] + (LinesFrom(a, nl + 1) + LinesFrom(b, 0)) == [line] + LinesFrom(a, nl + 1) + LinesFrom(b, 0);
  }

  /** Lines are read one after the other: the lines of `a + b` are those of `a`, then those of `b`. */
  lemma LinesConcat(a: string, b: string)
    requires Terminated(a)
    ensures Lines(a + b) == Lines(a) + Lines(b)
  {
    LinesFromConcat(a, b, 0);
  }

  /** Text after the last line break adds no line. */
  lemma LinesIgnoreTail(text: string, tail: string)
    requires Terminated(text) && '\n' !in tail
    ensures Lines(text + tail) == Lines(text)
  {
    LinesConcat(text, tail);
    NextNewlineIsFirst(tail, 0);
    assert NextNewline(tail, 0) == |tail|;
  }

  // ---------------------------------------------------------------------------
  // Collecting the outcomes of the lines
  // ---------------------------------------------------------------------------

  function Prepend(acc: seq<Requirement>, p: Parsed): Parsed {
    Parsed(acc + p.reqs, p.err)
  }

  /** Outcomes in file order: accepted requirements are kept, the first rejection stops. */
  function Collect(outs: seq<LineOutcome>): Parsed {
    if outs == [] then Parsed([], None)
    else match outs[0]
      case Blank => Collect(outs[1..])
      case Accepted(r) => Prepend([r], Collect(outs[1..]))
      case Rejected(e) => Parsed([], Some(e))
  }

  /** The outcome of each line, in order. */
  function Outcomes(lines: seq<string>): (outs: seq<LineOutcome>)
    ensures |outs| == |lines|
  {
    if lines == [] then [] else [ParseLine(lines[0])] + Outcomes(lines[1..])
  }

  lemma {:induction false} OutcomesAt(lines: seq<string>, k: nat)
    requires k < |lines|
    ensures Outcomes(lines)[k] == ParseLine(lines[k])
  {
    if k > 0 {
      OutcomesAt(lines[1..], k - 1);
    }
  }

  function ParseText(text: string): Parsed {
    Collect(Outcomes(Lines(text)))
  }

  function ParseManifest(m: Manifest): Parsed {
    match m
    case Unopenable => Parsed([], Some(OpenFailed))
    case Manifest(text) => ParseText(text)
  }

  lemma CollectStep(o: LineOutcome, rest: seq<LineOutcome>)
    ensures o.Blank? ==> Collect([o] + rest) == Collect(rest)
    ensures o.Accepted? ==> Collect([o] + rest) == Prepend([o.req], Collect(rest))
    ensures o.Rejected? ==> Collect([o] + rest) == Parsed([], Some(o.error))
  {
    assert ([o] + rest)[1..] == rest;
  }

  lemma PrependTwice(a: seq<Requirement>, b: seq<Requirement>, p: Parsed)
    ensures Prepend(a, Prepend(b, p)) == Prepend(a + b, p)
  {
    assert a + (b + p.reqs) == a + b + p.reqs;
  }

  /** The collection from the `i`-th outcome on, by that outcome's kind. */
  lemma CollectAt(outs: seq<LineOutcome>, i: nat)
    requires i < |outs|
    ensures outs[i].Blank? ==> Collect(outs[i..]) == Collect(outs[i + 1..])
    ensures outs[i].Accepted? ==> Collect(outs[i..]) == Prepend([outs[i].req], Collect(outs[i + 1..]))
    ensures outs[i].Rejected? ==> Collect(outs[i..]) == Parsed([], Some(outs[i].error))
  {
    assert outs[i..][0] == outs[i];
    assert outs[i..][1..] == outs[i + 1..];
  }

  /** The line at `pos` is the next one of the remaining lines. */
  lemma NextLine(text: string, pos: nat, lines: seq<string>, i: nat)
    requires pos <= |text| && i <= |lines| && LinesFrom(text, pos) == lines[i..]
    requires NextNewline(text, pos) < |text|
    ensures i < |lines| && lines[i] == text[pos..NextNewline(text, pos) + 1]
    ensures LinesFrom(text, NextNewline(text, pos) + 1) == lines[i + 1..]
  {
    LinesFromStep(text, pos);
    assert lines[i..][0] == lines[i];
    assert lines[i..][1..] == lines[i + 1..];
  }

  /** The outcome of a line, by the steps the read loop takes on it. */
  lemma LineSteps(raw: string, line: string)
    requires line == StripComment(TrimSpace(raw))
    ensures line == "" ==> ParseLine(raw) == Blank
    ensures line != "" && FindString(line) != "==" ==>
      ParseLine(raw) == Rejected(Unsupported(FindString(line), line))
    ensures line != "" && FindString(line) == "==" ==>
      ParseLine(raw) == Accepted(Requirement(Split(line)[0], Specifier("==", Split(line)[1])))
  {
  }

  /** What the read loop's steps on the `i`-th line, taken as the text `raw`, do to the collection. */
  lemma ReadLineStep(lines: seq<string>, outs: seq<LineOutcome>, i: nat, raw: string, line: string)
    requires outs == Outcomes(lines) && i < |lines| && lines[i] == raw
    requires line == StripComment(TrimSpace(raw))
    ensures line == "" ==> Collect(outs[i..]) == Collect(outs[i + 1..])
    ensures line != "" && FindString(line) != "==" ==>
      Collect(outs[i..]) == Parsed([], Some(Unsupported(FindString(line), line)))
    ensures line != "" && FindString(line) == "==" ==>
      Collect(outs[i..]) ==
        Prepend([Requirement(Split(line)[0], Specifier("==", Split(line)[1]))], Collect(outs[i + 1..]))
  {
    OutcomesAt(lines, i);
    CollectAt(outs, i);
    LineSteps(raw, line);
  }

  /** `ParseRequirements`: the read loop over the manifest. */
  method ParseRequirements(m: Manifest) returns (reqs: seq<Requirement>, err: Option<ParseError>)
    ensures Parsed(reqs, err) == ParseManifest(m)
  {
    reqs := [];
    if m.Unopenable? {
      err := Some(OpenFailed);
      return;
    }
    var text := m.text;
    ghost var lines := Lines(text);
    ghost var outs := Outcomes(lines);
    ghost var i := 0;
    var pos := 0;
    while true
      invariant pos <= |text| && i <= |lines|
      invariant LinesFrom(text, pos) == lines[i..]
      invariant Prepend(reqs, Collect(outs[i..])) == Collect(outs)
      decreases |text| - pos
    {
      var nl := NextNewline(text, pos);
      if nl == |text| {
        LinesFromEnd(text, pos);
        break;
      }
      var raw := text[pos..nl + 1];
      NextLine(text, pos, lines, i);
      pos, i := nl + 1, i + 1;
      assert LinesFrom(text, pos) == lines[i..];
      var line := TrimSpace(raw);
      line := StripComment(line);
      ReadLineStep(lines, outs, i - 1, raw, line);
      if line != "" {
        var comparison := FindString(line);
        if comparison != "==" {
          err := Some(Unsupported(comparison, line));
          return;
        }
        var parts := Split(line);
        var r := Requirement(parts[0], Specifier(comparison, parts[1]));
        PrependTwice(reqs, [r], Collect(outs[i..]));
        reqs := reqs + [r];
      }
    }
    assert outs[i..] == [];
    err := None;
  }

  // ---------------------------------------------------------------------------
  // Typical lines
  // ---------------------------------------------------------------------------

  /** Text in which neither pattern nor the line reader finds anything. */
  predicate Plain(t: string) {
    forall k :: 0 <= k < |t| ==> !IsOperatorChar(t[k]) && t[k] != '#' && t[k] != '\n'
  }

  lemma TrimSpaceOfLine(c: string)
    requires c != [] && !IsSpace(c[0]) && !IsSpace(c[|c| - 1])
    ensures TrimSpace(c + "\n") == c
  {
    var line := c + "\n";
    assert TrimLeft(line) == line;
    assert line[..|line| - 1] == c;
    assert IsSpace(line[|line| - 1]);
    assert TrimRight(line) == TrimRight(c);
  }

  /**
   * A pinned line `name==version`: when name and version hold no operator
   * character, '#' or line break and the line has no blank at either end,
   * it is accepted with exactly that name and version.
   */
  lemma PinnedLineParses(name: string, version: string)
    requires name != [] && version != [] && Plain(name) && Plain(version)
    requires !IsSpace(name[0]) && !IsSpace(version[|version| - 1])
    ensures ParseLine(name + "==" + version + "\n") == Accepted(Requirement(name, Specifier("==", version)))
  {
    var c := name + "==" + version;
    assert c + "\n" == name + "==" + version + "\n";
    PinnedClean(name, version);
    PinnedSplit(name, version);
  }

  lemma PinnedClean(name: string, version: string)
    requires name != [] && version != [] && Plain(name) && Plain(version)
    requires !IsSpace(name[0]) && !IsSpace(version[|version| - 1])
    ensures CleanLine(name + "==" + version + "\n") == name + "==" + version
  {
    var n := |name|;
    var c := name + "==" + version;
    assert forall k :: 0 <= k < n ==> c[k] == name[k];
    assert forall k :: n + 2 <= k < |c| ==> c[k] == version[k - n - 2];
    TrimSpaceOfLine(c);
    NoHashKept(c);
  }

  lemma PinnedSplit(name: string, version: string)
    requires Plain(name) && Plain(version)
    ensures FindString(name + "==" + version) == "=="
    ensures Split(name + "==" + version) == [name, version]
  {
    var n := |name|;
    var c := name + "==" + version;
    PinnedMatches(name, version);
    SplitStep(c, 0, n);
    SplitStepLast(c, n + 2);
    assert c[..n] == name && c[n + 2..] == version;
    assert c[0..n] == c[..n];
  }

  /** In `name==version` the only operator match is the "==" right after the name. */
  lemma PinnedMatches(name: string, version: string)
    requires Plain(name) && Plain(version)
    ensures var c := name + "==" + version;
      && FindOperatorFrom(c, 0) == Some(|name|) && OperatorWidth(c, |name|) == 2
      && FindOperatorFrom(c, |name| + 2) == None
  {
    var n := |name|;
    var c := name + "==" + version;
    forall p | 0 <= p < n
      ensures OperatorWidth(c, p) == 0
    {
      assert c[p] == name[p];
    }
    forall p | n + 2 <= p < |c|
      ensures OperatorWidth(c, p) == 0
    {
      assert c[p] == version[p - n - 2];
    }
    assert c[n] == '=' && c[n + 1] == '=';
    FindOperatorFindsFirst(c, 0, n);
    FindOperatorFindsNone(c, n + 2);
  }

  /**
   * A line `name` op `version` with any other operator of the pattern is
   * rejected, naming the operator the pattern reports: "<" for "<=", since
   * "<" comes first in the alternation.
   */
  lemma OtherOperatorRejected(name: string, op: string, version: string)
    requires op in OperatorAlternatives && op != "==" && op != "==="
    requires name != [] && version != [] && Plain(name) && Plain(version)
    requires !IsSpace(name[0]) && !IsSpace(version[|version| - 1])
    ensures var c := name + op + version;
      ParseLine(c + "\n") == Rejected(Unsupported(if op == "<=" then "<" else op, c))
  {
    var c := name + op + version;
    OtherOperatorClean(name, op, version);
    OtherOperatorFound(name, op, version);
    LineSteps(c + "\n", c);
  }

  lemma OtherOperatorClean(name: string, op: string, version: string)
    requires op in OperatorAlternatives
    requires name != [] && version != [] && Plain(name) && Plain(version)
    requires !IsSpace(name[0]) && !IsSpace(version[|version| - 1])
    ensures var c := name + op + version;
      c != "" && StripComment(TrimSpace(c + "\n")) == c
  {
    var n := |name|;
    var c := name + op + version;
    assert forall k :: 0 <= k < n ==> c[k] == name[k];
    assert forall k :: n + |op| <= k < |c| ==> c[k] == version[k - n - |op|];
    assert forall k :: 0 <= k < |op| ==> op[k] != '#';
    assert '#' !in c by {
      forall k | 0 <= k < |c|
        ensures c[k] != '#'
      {
        if n <= k < n + |op| {
          assert c[k] == op[k - n];
        }
      }
    }
    TrimSpaceOfLine(c);
    NoHashKept(c);
  }

  lemma OtherOperatorFound(name: string, op: string, version: string)
    requires op in OperatorAlternatives && op != "==" && op != "==="
    requires version != [] && Plain(name) && Plain(version)
    ensures FindString(name + op + version) == if op == "<=" then "<" else op
  {
    var n := |name|;
    var c := name + op + version;
    forall p | 0 <= p < n
      ensures OperatorWidth(c, p) == 0
    {
      assert c[p] == name[p];
    }
    assert forall k :: n <= k < n + |op| ==> c[k] == op[k - n];
    assert c[n + |op|] == version[0];
    assert OperatorWidth(c, n) == (if op == "<=" then 1 else |op|);
    FindOperatorFindsFirst(c, 0, n);
    var reported := if op == "<=" then "<" else op;
    assert c[n..n + |reported|] == reported;
  }

  /**
   * `name===version` is accepted: the pattern reads "==" right after the name,
   * and the third '=' becomes the first character of the version.
   */
  lemma TripleEqualsAccepted(name: string, version: string)
    requires name != [] && version != [] && Plain(name) && Plain(version)
    requires !IsSpace(name[0]) && !IsSpace(version[|version| - 1])
    ensures ParseLine(name + "===" + version + "\n") == Accepted(Requirement(name, Specifier("==", "=" + version)))
  {
    var c := name + "===" + version;
    OtherOperatorClean(name, "===", version);
    TripleEqualsSplit(name, version);
    LineSteps(c + "\n", c);
  }

  lemma TripleEqualsSplit(name: string, version: string)
    requires version != [] && Plain(name) && Plain(version)
    ensures FindString(name + "===" + version) == "=="
    ensures Split(name + "===" + version) == [name, "=" + version]
  {
    var n := |name|;
    var c := name + "===" + version;
    forall p | 0 <= p < n
      ensures OperatorWidth(c, p) == 0
    {
      assert c[p] == name[p];
    }
    forall p | n + 3 <= p < |c|
      ensures OperatorWidth(c, p) == 0
    {
      assert c[p] == version[p - n - 3];
    }
    assert c[n] == '=' && c[n + 1] == '=' && c[n + 2] == '=' && c[n + 3] == version[0];
    assert OperatorWidth(c, n + 2) == 0;
    FindOperatorFindsFirst(c, 0, n);
    FindOperatorFindsNone(c, n + 2);
    SplitStep(c, 0, n);
    SplitStepLast(c, n + 2);
    assert c[..n] == name && c[n + 2..] == "=" + version;
    assert c[0..n] == c[..n];
  }

  /** A line without any operator, such as a bare project name, is rejected with the comparison "". */
  lemma MissingOperatorRejected(name: string)
    requires name != [] && Plain(name) && !IsSpace(name[0]) && !IsSpace(name[|name| - 1])
    ensures ParseLine(name + "\n") == Rejected(Unsupported("", name))
  {
    TrimSpaceOfLine(name);
    NoHashKept(name);
    FindOperatorFindsNone(name, 0);
  }

  // ---------------------------------------------------------------------------
  // Properties of the whole parse
  // ---------------------------------------------------------------------------

  /** The requirements of the accepted outcomes, in order (a reference definition). */
  function AcceptedReqs(outs: seq<LineOutcome>): seq<Requirement> {
    if outs == [] then []
    else (if outs[0].Accepted? then [outs[0].req] else []) + AcceptedReqs(outs[1..])
  }

  /** Index of the first rejected outcome, or |outs| when there is none. */
  function FirstRejection(outs: seq<LineOutcome>): (k: nat)
    ensures k <= |outs|
    ensures k < |outs| ==> outs[k].Rejected?
    ensures forall j :: 0 <= j < k ==> !outs[j].Rejected?
  {
    if outs == [] || outs[0].Rejected? then 0 else 1 + FirstRejection(outs[1..])
  }

  /**
   * The parse result is the requirements of the accepted lines before the
   * first rejected one, with the rejection as the error; with no rejected
   * line, all accepted requirements and no error.
   */
  lemma {:induction false} CollectIsPrefixBeforeRejection(outs: seq<LineOutcome>)
    ensures var k := FirstRejection(outs);
      Collect(outs) == Parsed(AcceptedReqs(outs[..k]), if k < |outs| then Some(outs[k].error) else None)
  {
    if outs != [] {
      var k := FirstRejection(outs);
      if outs[0].Rejected? {
        assert outs[..0] == [];
      } else {
        CollectIsPrefixBeforeRejection(outs[1..]);
        assert outs[..k][1..] == outs[1..][..k - 1];
        assert outs[..k][0] == outs[0];
      }
    }
  }

  /** Continuing a parse with the lines of `rest`, unless it already stopped. */
  function Continue(p: Parsed, rest: seq<LineOutcome>): Parsed {
    if p.err.Some? then p else Prepend(p.reqs, Collect(rest))
  }

  lemma {:induction false} CollectConcat(x: seq<LineOutcome>, y: seq<LineOutcome>)
    ensures Collect(x + y) == Continue(Collect(x), y)
  {
    if x != [] {
      assert (x + y)[0] == x[0];
      assert (x + y)[1..] == x[1..] + y;
      CollectConcat(x[1..], y);
      if x[0].Accepted? {
        PrependTwice([x[0].req], Collect(x[1..]).reqs, Collect(y));
      }
    } else {
      assert x + y == y;
    }
  }

  lemma OutcomesConcat(x: seq<string>, y: seq<string>)
    ensures Outcomes(x + y) == Outcomes(x) + Outcomes(y)
  {
    forall k | 0 <= k < |x + y|
      ensures Outcomes(x + y)[k] == (Outcomes(x) + Outcomes(y))[k]
    {
      OutcomesAt(x + y, k);
      if k < |x| {
        OutcomesAt(x, k);
      } else {
        OutcomesAt(y, k - |x|);
      }
    }
  }

  /**
   * Lines are parsed in file order: parsing `a + b`, with `a` ending at a line
   * break, is parsing `a` and then, if that raised no error, `b`, with the
   * requirements of `a` kept in front.
   */
  lemma ParseConcat(a: string, b: string)
    requires Terminated(a)
    ensures ParseText(a + b) == Continue(ParseText(a), Outcomes(Lines(b)))
  {
    LinesConcat(a, b);
    OutcomesConcat(Lines(a), Lines(b));
    CollectConcat(Outcomes(Lines(a)), Outcomes(Lines(b)));
  }

  /**
   * An unterminated final line, whatever it holds, adds no requirement and no
   * error: ReadString returns it with io.EOF and the loop stops first.
   */
  lemma UnterminatedTailIgnored(text: string, tail: string)
    requires Terminated(text) && '\n' !in tail
    ensures ParseText(text + tail) == ParseText(text)
  {
    LinesIgnoreTail(text, tail);
  }

  lemma LinesOfLine(line: string)
    requires IsLine(line)
    ensures Lines(line) == [line]
  {
    forall p | 0 <= p < |line| - 1
      ensures line[p] != '\n'
    {
      assert line[p] == line[..|line| - 1][p];
    }
    NewlineAt(line, 0, |line| - 1);
    assert line[0..|line|] == line;
    assert LinesFrom(line, |line|) == [];
  }

  /** A blank or comment-only line anywhere changes nothing. */
  lemma BlankLineIgnored(a: string, line: string, b: string)
    requires Terminated(a) && IsLine(line) && CleanLine(line) == ""
    ensures ParseText(a + line + b) == ParseText(a + b)
  {
    assert a + line + b == a + (line + b);
    LinesConcat(a, line + b);
    LinesConcat(a, b);
    LinesConcat(line, b);
    LinesOfLine(line);
    OutcomesConcat(Lines(a), [line] + Lines(b));
    OutcomesConcat(Lines(a), Lines(b));
    OutcomesConcat([line], Lines(b));
    CollectConcat(Outcomes(Lines(a)), Outcomes([line] + Lines(b)));
    CollectConcat(Outcomes(Lines(a)), Outcomes(Lines(b)));
    CollectStep(ParseLine(line), Outcomes(Lines(b)));
  }

  predicate AllEquality(reqs: seq<Requirement>) {
    forall k :: 0 <= k < |reqs| ==> reqs[k].specification.comparison == "=="
  }

  /** Every accepted outcome among `outs` carries the comparison "==". */
  predicate AcceptsOnlyEquality(outs: seq<LineOutcome>) {
    forall k :: 0 <= k < |outs| && outs[k].Accepted? ==> outs[k].req.specification.comparison == "=="
  }

  lemma {:induction false} CollectAllEquality(outs: seq<LineOutcome>)
    requires AcceptsOnlyEquality(outs)
    ensures AllEquality(Collect(outs).reqs)
  {
    if outs != [] {
      assert outs == [outs[0]] + outs[1..];
      assert AcceptsOnlyEquality(outs[1..]) by {
        forall k | 0 <= k < |outs[1..]| && outs[1..][k].Accepted?
          ensures outs[1..][k].req.specification.comparison == "=="
        {
          assert outs[1..][k] == outs[k + 1];
        }
      }
      CollectAllEquality(outs[1..]);
      CollectStep(outs[0], outs[1..]);
    }
  }

  /** The parser accepts a line only with the comparison "==". */
  lemma AcceptedIsEquality(line: string)
    ensures ParseLine(line).Accepted? ==> ParseLine(line).req.specification.comparison == "=="
  {
  }

  /**
   * Every requirement returned, with or without an error, has the comparison
   * "==": the panic in the download loop for any other comparison cannot fire.
   */
  lemma ManifestAllEquality(m: Manifest)
    ensures AllEquality(ParseManifest(m).reqs)
  {
    if m.Manifest? {
      var lines := Lines(m.text);
      var outs := Outcomes(lines);
      forall k | 0 <= k < |outs|
        ensures outs[k].Accepted? ==> outs[k].req.specification.comparison == "=="
      {
        OutcomesAt(lines, k);
        AcceptedIsEquality(lines[k]);
      }
      CollectAllEquality(outs);
    }
  }

  /** Joining complete lines and reading them back gives the same lines. */
  lemma {:induction false} LinesOfConcat(lines: seq<string>)
    requires forall k :: 0 <= k < |lines| ==> IsLine(lines[k])
    ensures Lines(Concat(lines)) == lines
  {
    if lines != [] {
      LinesOfConcat(lines[1..]);
      LinesConcat(lines[0], Concat(lines[1..]));
      LinesOfLine(lines[0]);
    } else {
      assert NextNewline("", 0) == 0;
    }
  }

  /** The parse of complete lines is the collection of their outcomes. */
  lemma ParseOfLines(lines: seq<string>)
    requires forall k :: 0 <= k < |lines| ==> IsLine(lines[k])
    ensures ParseText(Concat(lines)) == Collect(Outcomes(lines))
  {
    LinesOfConcat(lines);
  }

  /** A line `name==version` the parser reads back as that very requirement. */
  predicate WellPinned(r: Requirement) {
    && r.specification.comparison == "=="
    && r.name != [] && r.specification.version != []
    && Plain(r.name) && Plain(r.specification.version)
    && !IsSpace(r.name[0]) && !IsSpace(r.specification.version[|r.specification.version| - 1])
  }

  function PinnedLine(r: Requirement): string {
    r.name + "==" + r.specification.version + "\n"
  }

  /** A manifest written as one pinned line per requirement. */
  function PinnedText(pins: seq<Requirement>): string {
    if pins == [] then "" else PinnedLine(pins[0]) + PinnedText(pins[1..])
  }

  lemma {:induction false} PinnedTextTerminated(pins: seq<Requirement>)
    ensures Terminated(PinnedText(pins))
  {
    if pins != [] {
      PinnedTextTerminated(pins[1..]);
      var line, rest := PinnedLine(pins[0]), PinnedText(pins[1..]);
      if rest != [] {
        assert (line + rest)[|line + rest| - 1] == rest[|rest| - 1];
      }
    }
  }

  /** The parse of a text that is one complete line. */
  lemma ParseOfOneLine(line: string)
    requires IsLine(line)
    ensures ParseLine(line).Blank? ==> ParseText(line) == Parsed([], None)
    ensures ParseLine(line).Accepted? ==> ParseText(line) == Parsed([ParseLine(line).req], None)
    ensures ParseLine(line).Rejected? ==> ParseText(line) == Parsed([], Some(ParseLine(line).error))
  {
    LinesOfLine(line);
    OutcomesAt([line], 0);
    assert Outcomes([line]) == [ParseLine(line)] + [];
    CollectStep(ParseLine(line), []);
  }

  /**
   * Writing requirements as pinned lines and parsing the text gives back
   * exactly those requirements, in order, and no error.
   */
  lemma {:induction false} PinnedManifestRoundTrip(pins: seq<Requirement>)
    requires forall k :: 0 <= k < |pins| ==> WellPinned(pins[k])
    ensures ParseText(PinnedText(pins)) == Parsed(pins, None)
  {
    if pins == [] {
      assert NextNewline("", 0) == 0;
    } else {
      var r := pins[0];
      PinnedManifestRoundTrip(pins[1..]);
      var rest := PinnedText(pins[1..]);
      assert PinnedText(pins) == PinnedLine(r) + rest;
      PinnedLineRoundTrip(r);
      ParseConcat(PinnedLine(r), rest);
      assert Continue(ParseText(PinnedLine(r)), Outcomes(Lines(rest))) == Parsed([r] + pins[1..], None);
      assert [r] + pins[1..] == pins;
    }
  }

  /** One pinned line is a complete line that parses as its requirement. */
  lemma PinnedLineRoundTrip(r: Requirement)
    requires WellPinned(r)
    ensures IsLine(PinnedLine(r)) && Terminated(PinnedLine(r))
    ensures ParseText(PinnedLine(r)) == Parsed([r], None)
  {
    var line := PinnedLine(r);
    PinnedLineParses(r.name, r.specification.version);
    assert IsLine(line) by {
      assert line[..|line| - 1] == r.name + "==" + r.specification.version;
      PinnedNoNewline(r);
    }
    ParseOfOneLine(line);
  }

  lemma PinnedNoNewline(r: Requirement)
    requires WellPinned(r)
    ensures '\n' !in r.name + "==" + r.specification.version
  {
    var n, v := r.name, r.specification.version;
    var c := n + "==" + v;
    forall k | 0 <= k < |c|
      ensures c[k] != '\n'
    {
      if k < |n| {
        assert c[k] == n[k];
      } else if k >= |n| + 2 {
        assert c[k] == v[k - |n| - 2];
      }
    }
  }

  /**
   * A rejected line after lines that raised no error: the parse stops there,
   * returning the requirements read so far and the rejection, whatever follows.
   */
  lemma RejectionStopsParse(a: string, line: string, b: string)
    requires Terminated(a) && ParseText(a).err == None
    requires IsLine(line) && ParseLine(line).Rejected?
    ensures ParseText(a + line + b) == Parsed(ParseText(a).reqs, Some(ParseLine(line).error))
  {
    assert a + line + b == a + (line + b);
    ParseConcat(a, line + b);
    LinesConcat(line, b);
    LinesOfLine(line);
    OutcomesConcat([line], Lines(b));
    assert Outcomes([line]) == [ParseLine(line)];
    CollectStep(ParseLine(line), Outcomes(Lines(b)));
  }
}

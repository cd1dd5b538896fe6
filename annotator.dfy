/** The per-line gutter of the editor (app.js, `updateLineComplexity`): every line of
    the program gets a time and a space label. Loop nesting is tracked with a stack
    of the indentations of the open loop headers (`loopIndents`) beside a counter
    (`loopDepth`). */
module LineComplexity {
  import opened Strings
  import Complexity

  /** The labels the gutter shows. */
  datatype Cost = Zero | One | LogN | N | NLogN | N2 | N3

  function CostText(c: Cost): string {
    match c
    case Zero => "0"
    case One => "1"
    case LogN => "logn"
    case N => "n"
    case NLogN => "nlogn"
    case N2 => "n\U{00B2}"
    case N3 => "n\U{00B3}"
  }

  /** The label of one line: time, space and the 1-based line number. */
  datatype Label = Label(time: Cost, space: Cost, line: nat)

  /** The gutter's regular-expression tests on a trimmed line that are kept abstract. */
  datatype LinePatterns = LinePatterns(
    listInput: string -> bool,           // `list\s*\(.*input`, `input\(\)\.split`, `map\s*\(.*input`
    assignsInput: string -> bool,        // `=.*input\(\)`
    emptyBrackets: string -> bool,       // `\[\s*\]`
    dictCreate: string -> bool,          // `\{\s*\}`, `dict(`, `set(`, `defaultdict`, `Counter`
    nestedComprehension: string -> bool, // `\[.*for.*for`
    isSortCall: string -> bool)          // `.sort(` after any character, or `sorted(`

  /** An empty line or a comment. */
  predicate Blank(t: string) {
    t == [] || t[0] == '#'
  }

  /** `trimmed.startsWith('for') || trimmed.startsWith('while')`: such a line never
      closes a loop. */
  predicate KeepsLoops(t: string) {
    StartsWith(t, "for") || StartsWith(t, "while")
  }

  /** `=\s*\[`: an equals sign, optional white space, an opening bracket. */
  predicate BracketAfterEquals(t: string) {
    exists k :: 0 <= k < |t| && t[k] == '=' && SpacesThenBracket(t[k + 1..])
  }

  predicate SpacesThenBracket(s: string) {
    LeadingSpaces(s) < |s| && s[LeadingSpaces(s)] == '['
  }

  /** `/\[\s*\]|list\(|=\s*\[/`: a list is created. */
  predicate ListCreation(t: string, p: LinePatterns) {
    p.emptyBrackets(t) || Contains(t, "list(") || BracketAfterEquals(t)
  }

  /** `/\[\[/` or `/\[.*for.*for/`: a two-dimensional list is created. */
  predicate TwoD(t: string, p: LinePatterns) {
    Contains(t, "[[") || p.nestedComprehension(t)
  }

  /** A value read from the input that is not a list. */
  predicate ScalarInput(t: string, p: LinePatterns) {
    p.assignsInput(t) && !Contains(t, "list") && !Contains(t, "split") && !Contains(t, "map")
  }

  /** The label of a line inside `d` loops. */
  function DepthCost(d: nat): Cost {
    if d == 1 then N else if d == 2 then N2 else N3
  }

  // ---------------------------------------------------------------------------
  // Specification: the stack after each line and the label of each line

  /** The dedent step: close loops at this indentation or deeper, unless the line
      starts with `for` or `while`. */
  function Pop(stack: seq<nat>, indent: nat, t: string): (r: seq<nat>)
    ensures r <= stack
    ensures r == [] || indent > r[|r| - 1] || (r == stack && KeepsLoops(t))
    decreases |stack|
  {
    if stack != [] && indent <= stack[|stack| - 1] && !KeepsLoops(t) then Pop(stack[..|stack| - 1], indent, t)
    else stack
  }

  /** The stack after one line: dedent, then push the indentation of a loop header. */
  function StackAfterLine(stack: seq<nat>, line: string): seq<nat> {
    var t := Trim(line);
    var s := Pop(stack, LeadingSpaces(line), t);
    if Complexity.IsLoopHeader(t) then s + [LeadingSpaces(line)] else s
  }

  /** The stack after the given lines, starting from an empty one. */
  function StackAfter(lines: seq<string>): seq<nat> {
    if lines == [] then []
    else StackAfterLine(StackAfter(lines[..|lines| - 1]), lines[|lines| - 1])
  }

  /** The time label of trimmed line `t` once `depth` loops are open after the dedent step. */
  function TimeLabel(t: string, depth: nat, p: LinePatterns): Cost {
    if Complexity.IsLoopHeader(t) then DepthCost(depth + 1)
    else if p.isSortCall(t) then NLogN
    else if Contains(t, "bisect") then LogN
    else if Contains(t, ".append(") && depth > 0 then DepthCost(depth)
    else if depth > 0 then DepthCost(depth)
    else if Blank(t) then Zero
    else One
  }

  /** The space label of trimmed line `t`: the first test that matches decides. */
  function SpaceLabel(t: string, p: LinePatterns): Cost {
    if p.listInput(t) then N
    else if ScalarInput(t, p) then One
    else if ListCreation(t, p) then N
    else if p.dictCreate(t) then N
    else if TwoD(t, p) then N2
    else if Blank(t) then Zero
    else One
  }

  /** The label of `line`, numbered `n`, when `stack` holds the open loops before it. */
  function LineLabel(line: string, stack: seq<nat>, p: LinePatterns, n: nat): Label {
    var t := Trim(line);
    Label(TimeLabel(t, |Pop(stack, LeadingSpaces(line), t)|, p), SpaceLabel(t, p), n)
  }

  // ---------------------------------------------------------------------------
  // The gutter pass

  /** One line of the pass: the body of the `forEach` callback. */
  method AnnotateLine(line: string, loopIndents: seq<nat>, loopDepth: nat, p: LinePatterns, lineNum: nat)
    returns (marker: Label, indents: seq<nat>, depth: nat)
    requires loopDepth == |loopIndents|
    ensures marker == LineLabel(line, loopIndents, p, lineNum)
    ensures indents == StackAfterLine(loopIndents, line)
    ensures depth == |indents|
  {
    var trimmed := Trim(line);
    var indent := LeadingSpaces(line);
    indents, depth := loopIndents, loopDepth;
    while indents != [] && indent <= indents[|indents| - 1] && !KeepsLoops(trimmed)
      invariant Pop(indents, indent, trimmed) == Pop(loopIndents, indent, trimmed)
      invariant depth == |indents|
      decreases |indents|
    {
      indents := indents[..|indents| - 1];
      if depth > 0 {
        depth := depth - 1;
      }
    }
    assert indents == Pop(loopIndents, indent, trimmed);
    ghost var open := depth;

    var timeC, spaceC := Zero, Zero;
    if !Blank(trimmed) {
      timeC, spaceC := One, One;
    }

    if p.listInput(trimmed) {
      spaceC := N;
    } else if ScalarInput(trimmed, p) {
      spaceC := One;
    } else if ListCreation(trimmed, p) {
      spaceC := N;
    } else if p.dictCreate(trimmed) {
      spaceC := N;
    } else if TwoD(trimmed, p) {
      spaceC := N2;
    }
    assert spaceC == SpaceLabel(trimmed, p);

    if Complexity.IsLoopHeader(trimmed) {
      depth := depth + 1;
      indents := indents + [indent];
      timeC := DepthCost(depth);
    } else if p.isSortCall(trimmed) {
      timeC := NLogN;
    } else if Contains(trimmed, "bisect") {
      timeC := LogN;
    } else if Contains(trimmed, ".append(") && depth > 0 {
      timeC := DepthCost(depth);
    } else if depth > 0 {
      timeC := DepthCost(depth);
    }
    assert timeC == TimeLabel(trimmed, open, p);
    marker := Label(timeC, spaceC, lineNum);
  }

  /** The whole pass over the program's lines. */
  method UpdateLineComplexity(code: string, p: LinePatterns) returns (labels: seq<Label>)
    ensures |labels| == |Split(code, '\n')|
    ensures forall i :: 0 <= i < |labels| ==> labels[i].line == i + 1
    ensures forall i :: 0 <= i < |labels| ==>
      labels[i] == LineLabel(Split(code, '\n')[i], StackAfter(Split(code, '\n')[..i]), p, i + 1)
  {
    var lines := Split(code, '\n');
    var loopDepth := 0;
    var loopIndents: seq<nat> := [];
    labels := [];
    for idx := 0 to |lines|
      invariant loopIndents == StackAfter(lines[..idx]) && loopDepth == |loopIndents|
      invariant |labels| == idx && Labelled(lines, labels, p)
    {
      var marker;
      marker, loopIndents, loopDepth := AnnotateLine(lines[idx], loopIndents, loopDepth, p, idx + 1);
      StackAfterStep(lines, idx);
      LabelledAppend(lines, labels, marker, p);
      labels := labels + [marker];
    }
  }

  /** The first `|labels|` lines carry the labels the specification gives them. */
  predicate Labelled(lines: seq<string>, labels: seq<Label>, p: LinePatterns) {
    |labels| <= |lines| &&
    forall i :: 0 <= i < |labels| ==> labels[i] == LineLabel(lines[i], StackAfter(lines[..i]), p, i + 1)
  }

  lemma LabelledAppend(lines: seq<string>, labels: seq<Label>, marker: Label, p: LinePatterns)
    requires Labelled(lines, labels, p) && |labels| < |lines|
    requires marker == LineLabel(lines[|labels|], StackAfter(lines[..|labels|]), p, |labels| + 1)
    ensures Labelled(lines, labels + [marker], p)
  {
    assert forall i :: 0 <= i < |labels| ==> (labels + [marker])[i] == labels[i];
  }

  lemma StackAfterStep(lines: seq<string>, idx: int)
    requires 0 <= idx < |lines|
    ensures StackAfter(lines[..idx + 1]) == StackAfterLine(StackAfter(lines[..idx]), lines[idx])
  {
    assert lines[..idx + 1][..idx] == lines[..idx];
  }

  // ---------------------------------------------------------------------------
  // Properties of the labels

  /** A loop header ends on top of the stack and is labelled by the new depth:
      `n`, `n²` or `n³` for one, two, three or more open loops. */
  lemma HeaderLabel(line: string, stack: seq<nat>, p: LinePatterns, n: nat)
    requires Complexity.IsLoopHeader(Trim(line))
    ensures var s := StackAfterLine(stack, line);
      s != [] && s[|s| - 1] == LeadingSpaces(line) && |s| <= |stack| + 1 &&
      LineLabel(line, stack, p, n).time == DepthCost(|s|)
    ensures CostText(DepthCost(1)) == "n" && CostText(DepthCost(2)) == "n\U{00B2}" &&
            CostText(DepthCost(3)) == "n\U{00B3}"
  {
    var t := Trim(line);
    var popped := Pop(stack, LeadingSpaces(line), t);
    assert |popped| <= |stack|;
    assert StackAfterLine(stack, line) == popped + [LeadingSpaces(line)];
    assert LineLabel(line, stack, p, n).time == TimeLabel(t, |popped|, p) == DepthCost(|popped| + 1);
  }

  /** A line is dimmed (time `0`) exactly when it is empty or a comment, no loop is
      open around it, and it is not taken for a sort or a binary search. */
  lemma ZeroTimeIff(line: string, stack: seq<nat>, p: LinePatterns, n: nat)
    ensures var t := Trim(line);
      LineLabel(line, stack, p, n).time == Zero <==>
      Blank(t) && Pop(stack, LeadingSpaces(line), t) == [] && !p.isSortCall(t) && !Contains(t, "bisect")
  {
  }

  /** Inside `d > 0` loops a line that is not a header, a sort or a binary search is
      labelled by the depth, whether or not it appends to a list. */
  lemma InsideLoopLabel(t: string, d: nat, p: LinePatterns)
    requires d > 0 && !Complexity.IsLoopHeader(t) && !p.isSortCall(t) && !Contains(t, "bisect")
    ensures TimeLabel(t, d, p) == DepthCost(d) && DepthCost(d) != Zero && DepthCost(d) != One
  {
  }

  /** Every open loop was opened by a header line, so the gutter's depth never
      exceeds the number of headers the whole-program analysis counts. */
  lemma {:induction false} StackWithinHeaders(lines: seq<string>)
    ensures |StackAfter(lines)| <= Complexity.LoopCount(lines)
  {
    if lines != [] {
      var front := lines[..|lines| - 1];
      StackWithinHeaders(front);
      var last := lines[|lines| - 1];
      var s := Pop(StackAfter(front), LeadingSpaces(last), Trim(last));
      assert |s| <= |StackAfter(front)|;
    }
  }

  /** The space label is `n²` only for a two-dimensional list that no earlier test
      already claimed. */
  lemma QuadraticSpaceIff(t: string, p: LinePatterns)
    ensures SpaceLabel(t, p) == N2 <==>
      TwoD(t, p) && !p.listInput(t) && !ScalarInput(t, p) && !ListCreation(t, p) && !p.dictCreate(t)
  {
  }

  // ---------------------------------------------------------------------------
  // Sibling loops

  /** As written: a loop header never dedents, so a loop that follows another one at
      the same (or a smaller) indentation is counted as nested inside it and
      labelled `n²`. */
  lemma SiblingLoopsNested(h1: string, body: string, h2: string, p: LinePatterns)
    requires Complexity.IsLoopHeader(Trim(h1)) && Complexity.IsLoopHeader(Trim(h2))
    requires !Complexity.IsLoopHeader(Trim(body)) && LeadingSpaces(body) > LeadingSpaces(h1)
    requires LeadingSpaces(h2) <= LeadingSpaces(h1)
    ensures StackAfter([h1, body, h2]) == [LeadingSpaces(h1), LeadingSpaces(h2)]
    ensures LineLabel(h2, StackAfter([h1, body]), p, 3).time == N2
  {
    var i1 := LeadingSpaces(h1);
    ThreeLines(h1, body, h2);
    assert StackAfter([h1]) == [i1];
    assert StackAfter([h1, body]) == [i1];
    assert KeepsLoops(Trim(h2));
  }

  lemma ThreeLines(a: string, b: string, c: string)
    ensures StackAfter([a]) == StackAfterLine([], a)
    ensures StackAfter([a, b]) == StackAfterLine(StackAfter([a]), b)
    ensures StackAfter([a, b, c]) == StackAfterLine(StackAfter([a, b]), c)
    ensures StackAfterCorrected([a]) == StackAfterLineCorrected([], a)
    ensures StackAfterCorrected([a, b]) == StackAfterLineCorrected(StackAfterCorrected([a]), b)
    ensures StackAfterCorrected([a, b, c]) == StackAfterLineCorrected(StackAfterCorrected([a, b]), c)
  {
    assert [a, b, c][..2] == [a, b];
    assert [a, b][..1] == [a];
    assert [a][..0] == [];
  }

  /** Corrected dedent step: close every loop at this indentation or deeper. */
  function PopCorrected(stack: seq<nat>, indent: nat): (r: seq<nat>)
    ensures r <= stack
    ensures r == [] || indent > r[|r| - 1]
    decreases |stack|
  {
    if stack != [] && indent <= stack[|stack| - 1] then PopCorrected(stack[..|stack| - 1], indent)
    else stack
  }

  function StackAfterLineCorrected(stack: seq<nat>, line: string): seq<nat> {
    var s := PopCorrected(stack, LeadingSpaces(line));
    if Complexity.IsLoopHeader(Trim(line)) then s + [LeadingSpaces(line)] else s
  }

  function StackAfterCorrected(lines: seq<string>): seq<nat> {
    if lines == [] then []
    else StackAfterLineCorrected(StackAfterCorrected(lines[..|lines| - 1]), lines[|lines| - 1])
  }

  /** The corrected time label of a line. */
  function LineLabelCorrected(line: string, stack: seq<nat>, p: LinePatterns, n: nat): Label {
    var t := Trim(line);
    Label(TimeLabel(t, |PopCorrected(stack, LeadingSpaces(line))|, p), SpaceLabelCorrected(t, p), n)
  }

  predicate Increasing(s: seq<nat>) {
    forall i, j :: 0 <= i < j < |s| ==> s[i] < s[j]
  }

  /** Corrected: the open loops are strictly deeper and deeper indented, as nested
      Python blocks are. */
  lemma {:induction false} CorrectedStackIncreasing(lines: seq<string>)
    ensures Increasing(StackAfterCorrected(lines))
  {
    if lines != [] {
      var front := lines[..|lines| - 1];
      var last := lines[|lines| - 1];
      CorrectedStackIncreasing(front);
      var s := PopCorrected(StackAfterCorrected(front), LeadingSpaces(last));
      assert Increasing(s) by {
        assert s <= StackAfterCorrected(front);
        forall i, j | 0 <= i < j < |s|
          ensures s[i] < s[j]
        {
          assert s[i] == StackAfterCorrected(front)[i] && s[j] == StackAfterCorrected(front)[j];
        }
      }
      if Complexity.IsLoopHeader(Trim(last)) {
        var s' := s + [LeadingSpaces(last)];
        forall i, j | 0 <= i < j < |s'|
          ensures s'[i] < s'[j]
        {
          if j == |s| {
            assert s[i] <= s[|s| - 1];
          }
        }
      }
    }
  }

  /** Corrected: the second of two sibling loops is one loop deep and labelled `n`. */
  lemma SiblingLoopsCorrected(h1: string, body: string, h2: string, p: LinePatterns)
    requires Complexity.IsLoopHeader(Trim(h1)) && Complexity.IsLoopHeader(Trim(h2))
    requires !Complexity.IsLoopHeader(Trim(body)) && LeadingSpaces(body) > LeadingSpaces(h1)
    requires LeadingSpaces(h2) <= LeadingSpaces(h1)
    ensures StackAfterCorrected([h1, body, h2]) == [LeadingSpaces(h2)]
    ensures LineLabelCorrected(h2, StackAfterCorrected([h1, body]), p, 3).time == N
  {
    var i1 := LeadingSpaces(h1);
    ThreeLines(h1, body, h2);
    assert StackAfterCorrected([h1]) == [i1];
    assert StackAfterCorrected([h1, body]) == [i1];
  }

  // ---------------------------------------------------------------------------
  // Nested lists

  /** Corrected space label: the two-dimensional test comes before the list and
      dictionary tests, which every nested-list assignment also passes. */
  function SpaceLabelCorrected(t: string, p: LinePatterns): Cost {
    if p.listInput(t) then N
    else if ScalarInput(t, p) then One
    else if TwoD(t, p) then N2
    else if ListCreation(t, p) then N
    else if p.dictCreate(t) then N
    else if Blank(t) then Zero
    else One
  }

  lemma NestedListAssignment(t: string, k: int)
    requires OccursAt(t, "= [[", k)
    ensures BracketAfterEquals(t) && Contains(t, "[[")
  {
    var m := t[k..k + 4];
    assert t[k] == m[0] == '=';
    var rest := t[k + 1..];
    assert rest[..3] == m[1..];
    LeadingSpacesOf(" ", rest[1..]);
    assert rest == " " + rest[1..];
    assert SpacesThenBracket(rest);
    assert OccursAt(t, "[[", k + 2) by {
      assert t[k + 2..k + 4] == m[2..];
    }
  }

  /** As written: a nested-list assignment such as `grid = [[0] * m for _ in range(n)]`
      passes the list-creation test first and is labelled `n`, never `n²`. */
  lemma NestedListLinear(t: string, k: int, p: LinePatterns)
    requires OccursAt(t, "= [[", k)
    requires !p.listInput(t) && !ScalarInput(t, p)
    ensures TwoD(t, p) && SpaceLabel(t, p) == N
  {
    NestedListAssignment(t, k);
  }

  /** Corrected: the same line is labelled `n²`; on every other line the corrected
      label agrees with the one as written. */
  lemma NestedListQuadratic(t: string, k: int, p: LinePatterns)
    requires OccursAt(t, "= [[", k)
    requires !p.listInput(t) && !ScalarInput(t, p)
    ensures SpaceLabelCorrected(t, p) == N2
  {
    NestedListAssignment(t, k);
  }

  lemma CorrectedSpaceAgrees(t: string, p: LinePatterns)
    ensures !TwoD(t, p) || SpaceLabel(t, p) == N2 ==> SpaceLabelCorrected(t, p) == SpaceLabel(t, p)
    ensures TwoD(t, p) && !p.listInput(t) && !ScalarInput(t, p) ==> SpaceLabelCorrected(t, p) == N2
  {
  }
}

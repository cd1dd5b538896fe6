/** The complexity analyser (app.js, `detectComplexity`): one pass over the lines of
    a Python program collects loop headers, recursive definitions and a few
    algorithm hints, and a fixed table turns them into a time and a space class. */
module Complexity {
  import opened Strings

  /** The analyser's text heuristics that are regular expressions over one trimmed
      line (or, for `hasListLiteral`, over the whole program). They are kept
      abstract: the analysis depends only on their answers. */
  datatype Patterns = Patterns(
    isSort: string -> bool,          // `.sort(` or `sorted(`
    isBinarySearch: string -> bool,  // `bisect`, `binary_search`, `left…right…mid`
    isGraph: string -> bool,         // `deque`, `graph`, `visited`, `dfs`, `bfs`
    isDP: string -> bool,            // `dp[` or `memo`
    hasListLiteral: string -> bool)  // `[` … `]` on one line of the program

  datatype TimeClass =
    | Constant         // O(1)
    | Logarithmic      // O(log n)
    | Linear           // O(n)
    | Linearithmic     // O(n log n)
    | Quadratic        // O(n²)
    | QuadraticLog     // O(n² log n)
    | Cubic            // O(n³)
    | Exponential      // O(2^n) possible
    | Memoised         // O(n) with memo

  datatype SpaceClass = ConstantSpace | LinearSpace | QuadraticSpace

  /** The text the panel shows for a time class. */
  function TimeText(t: TimeClass): string {
    match t
    case Constant => "O(1)"
    case Logarithmic => "O(log n)"
    case Linear => "O(n)"
    case Linearithmic => "O(n log n)"
    case Quadratic => "O(n\U{00B2})"
    case QuadraticLog => "O(n\U{00B2} log n)"
    case Cubic => "O(n\U{00B3})"
    case Exponential => "O(2^n) possible"
    case Memoised => "O(n) with memo"
  }

  function SpaceText(s: SpaceClass): string {
    match s
    case ConstantSpace => "O(1)"
    case LinearSpace => "O(n)"
    case QuadraticSpace => "O(n\U{00B2})"
  }

  datatype DetailKind = Loop(depth: nat) | Recursion(name: string) | Sorting | BinarySearch | Memo

  /** One finding of the analysis, with its 1-based line number. */
  datatype Detail = Detail(line: nat, kind: DetailKind)

  datatype Analysis = Analysis(
    time: TimeClass, space: SpaceClass, details: seq<Detail>,
    loopDepth: nat, hasRecursion: bool, hasSorting: bool)

  /** `/^for\s+/` or `/^while\s+/` on a trimmed line. */
  predicate IsLoopHeader(t: string) {
    KeywordThenSpace(t, "for") || KeywordThenSpace(t, "while")
  }

  predicate KeywordThenSpace(t: string, kw: string) {
    |t| > |kw| && t[..|kw|] == kw && IsSpace(t[|kw|])
  }

  /** The name captured by `/^def\s+(\w+)/`. */
  function DefName(t: string): (r: Option<string>)
    ensures r.Some? ==> r.value != [] && forall i :: 0 <= i < |r.value| ==> IsWordChar(r.value[i])
  {
    if |t| > 3 && t[..3] == "def" then
      var k := LeadingSpaces(t[3..]);
      var rest := t[3 + k..];
      var n := WordRun(rest);
      if k > 0 && n > 0 then Some(rest[..n]) else None
    else None
  }

  /** `s.slice(k)` for an integer `k`: a negative `k` counts from the end. */
  function SliceFrom(s: string, k: int): (r: string)
    ensures |r| <= |s| && r == s[|s| - |r|..]
  {
    if k < 0 then (if |s| + k < 0 then s else s[|s| + k..])
    else if k > |s| then []
    else s[k..]
  }

  /** As written: the definition on trimmed line `t` is reported recursive when
      the program, from the first occurrence of `t` on, contains `name(`. */
  predicate RecursiveDef(code: string, t: string) {
    DefName(t).Some? && Contains(SliceFrom(code, IndexOf(code, t)), DefName(t).value + "(")
  }

  /** Number of loop headers among `lines`. */
  function LoopCount(lines: seq<string>): nat {
    if lines == [] then 0
    else LoopCount(lines[..|lines| - 1]) + (if IsLoopHeader(Trim(lines[|lines| - 1])) then 1 else 0)
  }

  lemma LoopCountStep(lines: seq<string>, idx: int)
    requires 0 <= idx < |lines|
    ensures LoopCount(lines[..idx + 1]) == LoopCount(lines[..idx]) + (if IsLoopHeader(Trim(lines[idx])) then 1 else 0)
  {
    assert lines[..idx + 1][..idx] == lines[..idx];
  }

  /** Some trimmed line satisfies `f`. */
  predicate AnyLine(lines: seq<string>, f: string -> bool) {
    lines != [] && (AnyLine(lines[..|lines| - 1], f) || f(Trim(lines[|lines| - 1])))
  }

  /** Some line holds a definition reported recursive. */
  predicate AnyRecursive(code: string, lines: seq<string>) {
    AnyLine(lines, t => RecursiveDef(code, t))
  }

  /** The precedence table that turns the collected facts into a time class. */
  function TimeOf(recursion: bool, dp: bool, depth: nat, sorting: bool, binarySearch: bool): TimeClass {
    if recursion && dp then Memoised
    else if recursion then Exponential
    else if depth >= 3 then Cubic
    else if depth == 2 then (if sorting then QuadraticLog else Quadratic)
    else if depth == 1 then (if sorting || binarySearch then Linearithmic else Linear)
    else if sorting then Linearithmic
    else if binarySearch then Logarithmic
    else Constant
  }

  function SpaceOf(dp: bool, nestedList: bool, listLiteral: bool, graph: bool): SpaceClass {
    if dp || nestedList then QuadraticSpace
    else if listLiteral || graph then LinearSpace
    else ConstantSpace
  }

  /** A detail is backed by the line it names. */
  predicate Justified(code: string, lines: seq<string>, d: Detail, p: Patterns) {
    1 <= d.line <= |lines| &&
    var t := Trim(lines[d.line - 1]);
    match d.kind
    case Loop(k) => IsLoopHeader(t) && k == LoopCount(lines[..d.line])
    case Recursion(n) => DefName(t) == Some(n) && RecursiveDef(code, t)
    case Sorting => p.isSort(t)
    case BinarySearch => p.isBinarySearch(t)
    case Memo => p.isDP(t)
  }

  /** The analysis of `code`: the loop depth is the number of loop headers, because
      the source never lowers its depth counter (the decrement on a dedent is
      commented out); every flag says whether some line shows its pattern; the
      classes follow the table; and every detail is backed by its line, in line order. */
  method DetectComplexity(code: string, p: Patterns) returns (a: Analysis)
    ensures var lines := Split(code, '\n');
      a.loopDepth == LoopCount(lines) &&
      a.hasRecursion == AnyRecursive(code, lines) &&
      a.hasSorting == AnyLine(lines, p.isSort)
    ensures var lines := Split(code, '\n');
      a.time == TimeOf(a.hasRecursion, AnyLine(lines, p.isDP), a.loopDepth, a.hasSorting,
                       AnyLine(lines, p.isBinarySearch))
    ensures var lines := Split(code, '\n');
      a.space == SpaceOf(AnyLine(lines, p.isDP), Contains(code, "[["), p.hasListLiteral(code),
                         AnyLine(lines, p.isGraph))
    ensures a.details == DetailsOf(code, Split(code, '\n'), |Split(code, '\n')|, p)
    ensures forall q :: 0 <= q < |a.details| ==> Justified(code, Split(code, '\n'), a.details[q], p)
    ensures forall q, r :: 0 <= q < r < |a.details| ==> a.details[q].line <= a.details[r].line
  {
    var lines := Split(code, '\n');
    var maxLoopDepth, currentLoopDepth := 0, 0;
    var hasRecursion, hasSorting, hasBinarySearch, hasGraph, hasDP := false, false, false, false, false;
    var details: seq<Detail> := [];
    for idx := 0 to |lines|
      invariant currentLoopDepth == maxLoopDepth
      invariant details == DetailsOf(code, lines, idx, p)
      invariant ScannedUpTo(code, lines, p, idx,
        LineFacts(currentLoopDepth, hasRecursion, hasSorting, hasBinarySearch, hasGraph, hasDP, details))
    {
      var f := ScanLine(code, lines, idx, currentLoopDepth, p);
      LineDetailsJustified(code, lines, idx, p);
      DetailsOfStep(code, lines, idx, p);
      ScanStep(code, lines, p, idx,
        LineFacts(currentLoopDepth, hasRecursion, hasSorting, hasBinarySearch, hasGraph, hasDP, details), f);
      currentLoopDepth := f.depth;
      maxLoopDepth := if currentLoopDepth > maxLoopDepth then currentLoopDepth else maxLoopDepth;
      hasRecursion := hasRecursion || f.recursion;
      hasSorting := hasSorting || f.sorting;
      hasBinarySearch := hasBinarySearch || f.binarySearch;
      hasGraph := hasGraph || f.graph;
      hasDP := hasDP || f.dp;
      details := details + f.details;
    }
    assert lines[..|lines|] == lines;
    var time := TimeOf(hasRecursion, hasDP, maxLoopDepth, hasSorting, hasBinarySearch);
    var space := SpaceOf(hasDP, Contains(code, "[["), p.hasListLiteral(code), hasGraph);
    a := Analysis(time, space, details, maxLoopDepth, hasRecursion, hasSorting);
  }

  /** The facts gathered over the first `n` lines. */
  predicate ScannedUpTo(code: string, lines: seq<string>, p: Patterns, n: int, acc: LineFacts) {
    0 <= n <= |lines| &&
    acc.depth == LoopCount(lines[..n]) &&
    acc.recursion == AnyRecursive(code, lines[..n]) &&
    acc.sorting == AnyLine(lines[..n], p.isSort) &&
    acc.binarySearch == AnyLine(lines[..n], p.isBinarySearch) &&
    acc.graph == AnyLine(lines[..n], p.isGraph) &&
    acc.dp == AnyLine(lines[..n], p.isDP) &&
    DetailsUpTo(code, lines, acc.details, n, p)
  }

  /** One more line scanned: the depth it reports, its flags joined to the others,
      its details after the others. */
  lemma ScanStep(code: string, lines: seq<string>, p: Patterns, idx: int, acc: LineFacts, f: LineFacts)
    requires ScannedUpTo(code, lines, p, idx, acc) && idx < |lines|
    requires f.depth == LoopCount(lines[..idx + 1])
    requires f.recursion == RecursiveDef(code, Trim(lines[idx]))
    requires f.sorting == p.isSort(Trim(lines[idx]))
    requires f.binarySearch == p.isBinarySearch(Trim(lines[idx]))
    requires f.graph == p.isGraph(Trim(lines[idx]))
    requires f.dp == p.isDP(Trim(lines[idx]))
    requires AllJustified(code, lines, f.details, idx + 1, p)
    ensures ScannedUpTo(code, lines, p, idx + 1,
      LineFacts(f.depth, acc.recursion || f.recursion, acc.sorting || f.sorting,
                acc.binarySearch || f.binarySearch, acc.graph || f.graph, acc.dp || f.dp,
                acc.details + f.details))
  {
    assert lines[..idx + 1][..idx] == lines[..idx];
    AppendLineDetails(code, lines, acc.details, f.details, idx, p);
  }

  /** The details of the first `n` lines: each backed by its line, in line order. */
  predicate DetailsUpTo(code: string, lines: seq<string>, ds: seq<Detail>, n: int, p: Patterns) {
    (forall q :: 0 <= q < |ds| ==> ds[q].line <= n && Justified(code, lines, ds[q], p)) &&
    (forall q, r :: 0 <= q < r < |ds| ==> ds[q].line <= ds[r].line)
  }

  lemma AppendLineDetails(code: string, lines: seq<string>, ds: seq<Detail>, fs: seq<Detail>, idx: int, p: Patterns)
    requires DetailsUpTo(code, lines, ds, idx, p) && AllJustified(code, lines, fs, idx + 1, p)
    ensures DetailsUpTo(code, lines, ds + fs, idx + 1, p)
  {
    assert forall q :: 0 <= q < |ds| ==> (ds + fs)[q] == ds[q];
    assert forall q :: |ds| <= q < |ds + fs| ==> (ds + fs)[q] == fs[q - |ds|];
  }

  /** What one line contributes: the loop depth after it, its flags and its details. */
  datatype LineFacts = LineFacts(
    depth: nat, recursion: bool, sorting: bool, binarySearch: bool, graph: bool, dp: bool,
    details: seq<Detail>)

  /** The body of the per-line pass, for line `idx` with loop depth `depth` so far. */
  method ScanLine(code: string, lines: seq<string>, idx: int, depth: nat, p: Patterns) returns (f: LineFacts)
    requires 0 <= idx < |lines| && depth == LoopCount(lines[..idx])
    ensures f.depth == LoopCount(lines[..idx + 1]) == depth + (if IsLoopHeader(Trim(lines[idx])) then 1 else 0)
    ensures f.recursion == RecursiveDef(code, Trim(lines[idx]))
    ensures f.sorting == p.isSort(Trim(lines[idx]))
    ensures f.binarySearch == p.isBinarySearch(Trim(lines[idx]))
    ensures f.graph == p.isGraph(Trim(lines[idx]))
    ensures f.dp == p.isDP(Trim(lines[idx]))
    ensures f.details == LineDetails(code, lines, idx, p)
  {
    var trimmed := Trim(lines[idx]);
    var line := idx + 1;
    LoopCountStep(lines, idx);
    var newDepth := depth;
    var details: seq<Detail> := [];
    if IsLoopHeader(trimmed) {
      newDepth := depth + 1;
      details := details + [Detail(line, Loop(newDepth))];
    }
    // The source's dedent branch would lower the depth here, but its decrement is commented out.
    var recursion := false;
    var name := DefName(trimmed);
    if name.Some? {
      var funcBody := SliceFrom(code, IndexOf(code, trimmed));
      if Contains(funcBody, name.value + "(") {
        recursion := true;
        details := details + [Detail(line, Recursion(name.value))];
      }
    }
    var sorting := p.isSort(trimmed);
    if sorting {
      details := details + [Detail(line, Sorting)];
    }
    var binarySearch := p.isBinarySearch(trimmed);
    if binarySearch {
      details := details + [Detail(line, BinarySearch)];
    }
    var graph := p.isGraph(trimmed);
    var dp := p.isDP(trimmed);
    if dp {
      details := details + [Detail(line, Memo)];
    }
    f := LineFacts(newDepth, recursion, sorting, binarySearch, graph, dp, details);
  }

  /** The details the pass records for line `idx`, in the order of its tests: the loop
      header with the depth after it, the recursive definition, the sort, the binary
      search and the DP pattern, each when its test holds. */
  function LineDetails(code: string, lines: seq<string>, idx: int, p: Patterns): seq<Detail>
    requires 0 <= idx < |lines|
  {
    var t := Trim(lines[idx]);
    var line := idx + 1;
    var afterLoop := Push([], IsLoopHeader(t), Detail(line, Loop(LoopCount(lines[..line]))));
    var afterRecursion := if RecursiveDef(code, t) then afterLoop + [Detail(line, Recursion(DefName(t).value))] else afterLoop;
    var afterSort := Push(afterRecursion, p.isSort(t), Detail(line, Sorting));
    var afterSearch := Push(afterSort, p.isBinarySearch(t), Detail(line, BinarySearch));
    Push(afterSearch, p.isDP(t), Detail(line, Memo))
  }

  /** `details.push(d)` when `b` holds. */
  function Push(ds: seq<Detail>, b: bool, d: Detail): (r: seq<Detail>)
    ensures forall x :: x in r <==> x in ds || (b && x == d)
  {
    if b then ds + [d] else ds
  }

  /** The details of the first `n` lines, line after line. */
  function DetailsOf(code: string, lines: seq<string>, n: int, p: Patterns): seq<Detail>
    requires 0 <= n <= |lines|
  {
    Concat(LinePart(code, lines, p), n)
  }

  /** Line `i`'s details, as a function of `i`. */
  function LinePart(code: string, lines: seq<string>, p: Patterns): nat -> seq<Detail> {
    (i: nat) => if i < |lines| then LineDetails(code, lines, i, p) else []
  }

  /** `f(0) + … + f(n - 1)`. */
  function Concat(f: nat -> seq<Detail>, n: nat): seq<Detail> {
    if n == 0 then [] else Concat(f, n - 1) + f(n - 1)
  }

  /** When every `f(i)` only holds details of line `i + 1`, a detail is in the
      concatenation exactly when its own line's part holds it. */
  lemma {:induction false} InConcat(f: nat -> seq<Detail>, n: nat, d: Detail)
    requires forall i: nat, x :: i < n && x in f(i) ==> x.line == i + 1
    ensures d in Concat(f, n) <==> 1 <= d.line <= n && d in f(d.line - 1)
  {
    if n > 0 {
      InConcat(f, n - 1, d);
    }
  }

  /** The details recorded for a line are exactly the findings that line backs. */
  lemma LineDetailsExactly(code: string, lines: seq<string>, idx: int, p: Patterns, d: Detail)
    requires 0 <= idx < |lines|
    ensures d in LineDetails(code, lines, idx, p) <==> d.line == idx + 1 && Justified(code, lines, d, p)
  {
    var t := Trim(lines[idx]);
    LineDetailsMembers(code, lines, idx, p, d);
    if d.line == idx + 1 {
      assert Trim(lines[d.line - 1]) == t;
      match d.kind
      case Loop(k) =>
        assert Justified(code, lines, d, p) <==> IsLoopHeader(t) && k == LoopCount(lines[..idx + 1]);
      case Recursion(n) =>
        assert Justified(code, lines, d, p) <==> DefName(t) == Some(n) && RecursiveDef(code, t);
      case Sorting =>
      case BinarySearch =>
      case Memo =>
    }
  }

  /** The members of `LineDetails`, one per test that holds. */
  lemma LineDetailsMembers(code: string, lines: seq<string>, idx: int, p: Patterns, d: Detail)
    requires 0 <= idx < |lines|
    ensures var t := Trim(lines[idx]);
      d in LineDetails(code, lines, idx, p) <==>
        (IsLoopHeader(t) && d == Detail(idx + 1, Loop(LoopCount(lines[..idx + 1])))) ||
        (RecursiveDef(code, t) && d == Detail(idx + 1, Recursion(DefName(t).value))) ||
        (p.isSort(t) && d == Detail(idx + 1, Sorting)) ||
        (p.isBinarySearch(t) && d == Detail(idx + 1, BinarySearch)) ||
        (p.isDP(t) && d == Detail(idx + 1, Memo))
  {
  }

  /** The details recorded over the first `n` lines are exactly the findings those
      lines back: none is missing and none is made up. */
  lemma DetailsExactly(code: string, lines: seq<string>, n: int, p: Patterns)
    requires 0 <= n <= |lines|
    ensures forall d :: d in DetailsOf(code, lines, n, p) <==> d.line <= n && Justified(code, lines, d, p)
  {
    forall d
      ensures d in DetailsOf(code, lines, n, p) <==> d.line <= n && Justified(code, lines, d, p)
    {
      DetailExactly(code, lines, n, p, d);
    }
  }

  lemma DetailExactly(code: string, lines: seq<string>, n: int, p: Patterns, d: Detail)
    requires 0 <= n <= |lines|
    ensures d in DetailsOf(code, lines, n, p) <==> d.line <= n && Justified(code, lines, d, p)
  {
    if 1 <= d.line <= n {
      DetailWithin(code, lines, n, p, d);
    } else {
      DetailOutside(code, lines, n, p, d);
    }
  }

  lemma DetailWithin(code: string, lines: seq<string>, n: int, p: Patterns, d: Detail)
    requires 0 <= n <= |lines| && 1 <= d.line <= n
    ensures d in DetailsOf(code, lines, n, p) <==> Justified(code, lines, d, p)
  {
    DetailsOfAt(code, lines, n, p, d);
    LinePartExactly(code, lines, d.line - 1, p, d);
  }

  lemma DetailOutside(code: string, lines: seq<string>, n: int, p: Patterns, d: Detail)
    requires 0 <= n <= |lines| && !(1 <= d.line <= n)
    ensures d !in DetailsOf(code, lines, n, p)
    ensures !(d.line <= n && Justified(code, lines, d, p))
  {
    DetailsOfAt(code, lines, n, p, d);
  }

  /** `LineDetailsExactly`, read through `LinePart`. */
  lemma LinePartExactly(code: string, lines: seq<string>, idx: nat, p: Patterns, d: Detail)
    requires idx < |lines|
    ensures d in LinePart(code, lines, p)(idx) <==> d.line == idx + 1 && Justified(code, lines, d, p)
  {
    LinePartAt(code, lines, p, idx);
    LineDetailsExactly(code, lines, idx, p, d);
  }

  /** A detail is among those of the first `n` lines exactly when its own line records it. */
  lemma DetailsOfAt(code: string, lines: seq<string>, n: int, p: Patterns, d: Detail)
    requires 0 <= n <= |lines|
    ensures d in DetailsOf(code, lines, n, p) <==> 1 <= d.line <= n && d in LinePart(code, lines, p)(d.line - 1)
  {
    LinePartLines(code, lines, p, n);
    InConcat(LinePart(code, lines, p), n, d);
  }

  lemma LinePartLines(code: string, lines: seq<string>, p: Patterns, n: int)
    requires 0 <= n <= |lines|
    ensures forall i: nat, x :: i < n && x in LinePart(code, lines, p)(i) ==> x.line == i + 1
  {
    forall i: nat, x | i < n && x in LinePart(code, lines, p)(i)
      ensures x.line == i + 1
    {
      LineDetailsLine(code, lines, i, p, x);
    }
  }

  lemma DetailsOfStep(code: string, lines: seq<string>, idx: int, p: Patterns)
    requires 0 <= idx < |lines|
    ensures DetailsOf(code, lines, idx + 1, p) == DetailsOf(code, lines, idx, p) + LineDetails(code, lines, idx, p)
  {
    LinePartAt(code, lines, p, idx);
  }

  lemma LinePartAt(code: string, lines: seq<string>, p: Patterns, i: nat)
    requires i < |lines|
    ensures LinePart(code, lines, p)(i) == LineDetails(code, lines, i, p)
  {
  }

  lemma LineDetailsLine(code: string, lines: seq<string>, idx: int, p: Patterns, d: Detail)
    requires 0 <= idx < |lines| && d in LineDetails(code, lines, idx, p)
    ensures d.line == idx + 1
  {
    LineDetailsMembers(code, lines, idx, p, d);
  }

  lemma LineDetailsJustified(code: string, lines: seq<string>, idx: int, p: Patterns)
    requires 0 <= idx < |lines|
    ensures AllJustified(code, lines, LineDetails(code, lines, idx, p), idx + 1, p)
  {
    var ds := LineDetails(code, lines, idx, p);
    forall q | 0 <= q < |ds|
      ensures ds[q].line == idx + 1 && Justified(code, lines, ds[q], p)
    {
      LineDetailsExactly(code, lines, idx, p, ds[q]);
    }
  }

  /** Every detail names line `line` and is backed by it. */
  predicate AllJustified(code: string, lines: seq<string>, ds: seq<Detail>, line: int, p: Patterns) {
    forall q :: 0 <= q < |ds| ==> ds[q].line == line && Justified(code, lines, ds[q], p)
  }

  // ---------------------------------------------------------------------------
  // The precedence table

  /** The order of the time classes without recursion, cheapest first. */
  function Rank(t: TimeClass): nat {
    match t
    case Constant => 0
    case Logarithmic => 1
    case Linear => 2
    case Linearithmic => 3
    case Quadratic => 4
    case QuadraticLog => 5
    case Cubic => 6
    case Exponential => 7
    case Memoised => 7
  }

  /** Only a program with no loop, no sorting, no binary search and no recursion is O(1). */
  lemma ConstantTimeIff(recursion: bool, dp: bool, depth: nat, sorting: bool, binarySearch: bool)
    ensures TimeOf(recursion, dp, depth, sorting, binarySearch) == Constant <==>
            !recursion && depth == 0 && !sorting && !binarySearch
  {
  }

  /** Recursion decides the class alone: loops, sorting and binary search no longer matter,
      and memoisation is what separates O(n) from O(2^n). */
  lemma RecursionDominates(dp: bool, d1: nat, s1: bool, b1: bool, d2: nat, s2: bool, b2: bool)
    ensures TimeOf(true, dp, d1, s1, b1) == TimeOf(true, dp, d2, s2, b2)
    ensures TimeOf(true, dp, d1, s1, b1) == Memoised <==> dp
  {
  }

  /** Without recursion, a DP pattern does not change the class. */
  lemma DPNeedsRecursion(depth: nat, sorting: bool, binarySearch: bool)
    ensures TimeOf(false, true, depth, sorting, binarySearch) == TimeOf(false, false, depth, sorting, binarySearch)
  {
  }

  /** Without recursion, more loops, a sort or a binary search never make the class cheaper. */
  lemma TimeMonotone(dp: bool, d1: nat, s1: bool, b1: bool, d2: nat, s2: bool, b2: bool)
    requires d1 <= d2 && (s1 ==> s2) && (b1 ==> b2)
    ensures Rank(TimeOf(false, dp, d1, s1, b1)) <= Rank(TimeOf(false, dp, d2, s2, b2))
    ensures Rank(TimeOf(false, dp, d1, s1, b1)) < 7
  {
  }

  /** Quadratic space comes exactly from a DP pattern or a nested list literal. */
  lemma QuadraticSpaceIff(dp: bool, nestedList: bool, listLiteral: bool, graph: bool)
    ensures SpaceOf(dp, nestedList, listLiteral, graph) == QuadraticSpace <==> dp || nestedList
    ensures SpaceOf(dp, nestedList, listLiteral, graph) == ConstantSpace <==>
            !dp && !nestedList && !listLiteral && !graph
  {
  }

  // ---------------------------------------------------------------------------
  // The line folds, read as statements about some line

  /** A line with the pattern makes the fold true ... */
  lemma {:induction false} AnyLineAt(lines: seq<string>, f: string -> bool, i: int)
    requires 0 <= i < |lines| && f(Trim(lines[i]))
    ensures AnyLine(lines, f)
    decreases |lines|
  {
    if i < |lines| - 1 {
      var init := lines[..|lines| - 1];
      assert init[i] == lines[i];
      AnyLineAt(init, f, i);
    }
  }

  /** ... and a true fold has such a line. */
  lemma {:induction false} AnyLineWitness(lines: seq<string>, f: string -> bool) returns (i: int)
    requires AnyLine(lines, f)
    ensures 0 <= i < |lines| && f(Trim(lines[i]))
    decreases |lines|
  {
    var init := lines[..|lines| - 1];
    if AnyLine(init, f) {
      i := AnyLineWitness(init, f);
      assert init[i] == lines[i];
    } else {
      i := |lines| - 1;
    }
  }

  lemma AnyRecursiveAt(code: string, lines: seq<string>, i: int)
    requires 0 <= i < |lines| && RecursiveDef(code, Trim(lines[i]))
    ensures AnyRecursive(code, lines)
  {
    AnyLineAt(lines, t => RecursiveDef(code, t), i);
  }

  lemma AnyRecursiveWitness(code: string, lines: seq<string>) returns (i: int)
    requires AnyRecursive(code, lines)
    ensures 0 <= i < |lines| && RecursiveDef(code, Trim(lines[i]))
  {
    i := AnyLineWitness(lines, t => RecursiveDef(code, t));
  }

  /** The loop depth adds up over consecutive pieces of a program: it counts loop
      headers, however they are nested. */
  lemma {:induction false} LoopCountAppend(a: seq<string>, b: seq<string>)
    ensures LoopCount(a + b) == LoopCount(a) + LoopCount(b)
    decreases |b|
  {
    if b == [] {
      assert a + b == a;
    } else {
      var b' := b[..|b| - 1];
      LoopCountAppend(a, b');
      assert (a + b)[..|a + b| - 1] == a + b';
    }
  }

  /** Two loops one after the other count as depth 2, like two nested loops. */
  lemma SiblingLoops(h1: string, body: string, h2: string)
    requires IsLoopHeader(Trim(h1)) && !IsLoopHeader(Trim(body)) && IsLoopHeader(Trim(h2))
    ensures LoopCount([h1, body, h2]) == 2
  {
    var ls := [h1, body, h2];
    assert ls[..2] == [h1, body] && ls[2] == h2;
    assert [h1, body][..1] == [h1] && [h1, body][1] == body;
    assert [h1][..0] == [] && [h1][0] == h1;
    assert LoopCount([h1]) == 1;
    assert LoopCount([h1, body]) == 1;
  }

  // ---------------------------------------------------------------------------
  // The recursion test

  /** A text that occurs in `code` is found by `indexOf`, and slicing from there
      keeps every occurrence of `x` inside it. */
  lemma SliceKeeps(code: string, t: string, k: int, x: string)
    requires OccursAt(code, t, k) && Contains(t, x)
    ensures Contains(SliceFrom(code, IndexOf(code, t)), x)
  {
    var r := IndexOf(code, t);
    assert OccursAt(code, t, r);
    var rest := SliceFrom(code, r);
    assert rest == code[r..];
    assert OccursAt(rest, t, 0) by {
      assert rest[..|t|] == code[r..r + |t|];
    }
    OccursWithin(rest, t, 0, x, IndexOf(t, x));
  }

  /** As written, every function whose definition line mentions `name(` (that is,
      every `def name(...)` line) is reported recursive, whatever its body. */
  lemma EveryDefinitionRecursive(code: string, i: int)
    requires 0 <= i < |Split(code, '\n')|
    requires var t := Trim(Split(code, '\n')[i]);
      DefName(t).Some? && Contains(t, DefName(t).value + "(")
    ensures AnyRecursive(code, Split(code, '\n'))
  {
    var lines := Split(code, '\n');
    var line := lines[i];
    var t := Trim(line);
    var k := SplitPartAt(code, '\n', i);
    TrimDrops(line);
    OccursWithin(code, line, k, t, LeadingSpaces(line));
    SliceKeeps(code, t, k + LeadingSpaces(line), DefName(t).value + "(");
    AnyRecursiveAt(code, lines, i);
  }

  /** The line `def name(…)` names `name` and mentions `name(`. */
  lemma DefLine(name: string, params: string)
    requires name != [] && forall i :: 0 <= i < |name| ==> IsWordChar(name[i])
    ensures var t := "def " + name + "(" + params;
      DefName(t) == Some(name) && Contains(t, name + "(")
  {
    var t := "def " + name + "(" + params;
    assert t[..3] == "def";
    assert t[3..] == " " + (name + "(" + params);
    LeadingSpacesOf(" ", name + "(" + params);
    assert t[4..] == name + ("(" + params);
    WordRunOf(name, "(" + params);
    assert t[4..][..|name|] == name;
    assert OccursAt(t, name + "(", 4) by {
      assert t[4..4 + |name| + 1] == name + "(";
    }
  }

  /** A line that does not end a Python block: blank, a comment, or indented deeper than `indent`. */
  predicate InsideBlock(line: string, indent: nat) {
    var k := LeadingSpaces(line);
    k == |line| || line[k] == '#' || k > indent
  }

  /** Index of the first line from `j` on that ends a block opened at depth `indent`
      (the end of the program when there is none). */
  function BlockEnd(lines: seq<string>, indent: nat, j: nat): (e: nat)
    requires j <= |lines|
    ensures j <= e <= |lines|
    ensures forall k :: j <= k < e ==> InsideBlock(lines[k], indent)
    ensures e < |lines| ==> !InsideBlock(lines[e], indent)
    decreases |lines| - j
  {
    if j == |lines| || !InsideBlock(lines[j], indent) then j else BlockEnd(lines, indent, j + 1)
  }

  /** The block end is the first line that is not inside the block. */
  lemma {:induction false} BlockEndAt(lines: seq<string>, indent: nat, j: nat, e: nat)
    requires j <= e <= |lines|
    requires forall k :: j <= k < e ==> InsideBlock(lines[k], indent)
    requires e < |lines| ==> !InsideBlock(lines[e], indent)
    ensures BlockEnd(lines, indent, j) == e
    decreases e - j
  {
    if j < e {
      BlockEndAt(lines, indent, j + 1, e);
    }
  }

  /** `s` calls `name`: `name(` occurs where no word character comes before it. */
  predicate Calls(s: string, name: string) {
    exists k :: 0 <= k <= |s| && OccursAt(s, name + "(", k) && (k == 0 || !IsWordChar(s[k - 1]))
  }

  /** Some line of `ls` calls `name`. */
  predicate AnyCalls(ls: seq<string>, name: string) {
    exists k :: 0 <= k < |ls| && Calls(ls[k], name)
  }

  /** Corrected: the definition on line `i` is recursive when its body calls it, the
      body being the lines after the definition up to the first line that is neither
      blank, a comment, nor indented deeper than the `def`. */
  predicate RecursiveDefCorrected(lines: seq<string>, i: int)
    requires 0 <= i < |lines|
  {
    var t := Trim(lines[i]);
    DefName(t).Some? &&
    AnyCalls(lines[i + 1..BlockEnd(lines, LeadingSpaces(lines[i]), i + 1)], DefName(t).value)
  }

  /** As written, a program that opens with a definition is reported recursive
      whatever follows it. */
  lemma DefinitionFollowedBy(t: string, body: string)
    requires DefName(t).Some? && Contains(t, DefName(t).value + "(")
    ensures RecursiveDef(t + "\n" + body, t)
  {
    OpensWith(t, "\n" + body);
    SliceKeeps(t + "\n" + body, t, 0, DefName(t).value + "(");
  }

  /** Corrected: a definition followed by its indented body and then by a line at
      its own depth or shallower is recursive exactly when that body calls it. */
  lemma DefinitionBody(t: string, body: seq<string>, rest: seq<string>)
    requires DefName(Trim(t)).Some?
    requires forall k :: 0 <= k < |body| ==> InsideBlock(body[k], LeadingSpaces(t))
    requires rest != [] ==> !InsideBlock(rest[0], LeadingSpaces(t))
    ensures RecursiveDefCorrected([t] + body + rest, 0) <==> AnyCalls(body, DefName(Trim(t)).value)
  {
    var lines := [t] + body + rest;
    BodyBlock(t, body, rest);
    assert lines[0] == t;
  }

  /** The block opened by the definition line spans exactly the indented lines after it. */
  lemma BodyBlock(t: string, body: seq<string>, rest: seq<string>)
    requires forall k :: 0 <= k < |body| ==> InsideBlock(body[k], LeadingSpaces(t))
    requires rest != [] ==> !InsideBlock(rest[0], LeadingSpaces(t))
    ensures var lines := [t] + body + rest;
      BlockEnd(lines, LeadingSpaces(t), 1) == 1 + |body| && lines[1..1 + |body|] == body
  {
    var lines := [t] + body + rest;
    var ind := LeadingSpaces(t);
    assert forall k :: 1 <= k < 1 + |body| ==> InsideBlock(lines[k], ind) by {
      forall k | 1 <= k < 1 + |body|
        ensures InsideBlock(lines[k], ind)
      {
        assert lines[k] == body[k - 1];
      }
    }
    assert 1 + |body| < |lines| ==> !InsideBlock(lines[1 + |body|], ind) by {
      if 1 + |body| < |lines| {
        assert lines[1 + |body|] == rest[0];
      }
    }
    BlockEndAt(lines, ind, 1, 1 + |body|);
    assert lines[1..1 + |body|] == body;
  }

  /** A top-level call after a function whose body never calls it: the test as
      written reports the function recursive, the corrected test does not. */
  lemma TopLevelCallNotRecursion(t: string, body: seq<string>, call: string)
    requires NoSpaceAtEnds(t) && DefName(t).Some? && Contains(t, DefName(t).value + "(")
    requires forall k :: 0 <= k < |body| ==> InsideBlock(body[k], 0)
    requires !AnyCalls(body, DefName(t).value)
    requires !InsideBlock(call, 0) && Calls(call, DefName(t).value)
    ensures RecursiveDef(Join([t] + body + [call], "\n"), t)
    ensures !RecursiveDefCorrected([t] + body + [call], 0)
  {
    TopLevelDef(t);
    DefinitionBody(t, body, [call]);
    JoinDefinition(t, body, call);
    DefinitionFollowedBy(t, Join(body + [call], "\n"));
  }

  /** A trimmed definition line starts at column 0. */
  lemma TopLevelDef(t: string)
    requires NoSpaceAtEnds(t) && DefName(t).Some?
    ensures Trim(t) == t && LeadingSpaces(t) == 0
  {
    assert t[..3] == "def";
    assert t[0] == 'd';
  }

  lemma JoinDefinition(t: string, body: seq<string>, call: string)
    ensures Join([t] + body + [call], "\n") == t + "\n" + Join(body + [call], "\n")
  {
    assert [t] + body + [call] == [t] + (body + [call]);
    JoinCons(t, body + [call], "\n");
  }

  lemma OpensWith(t: string, rest: string)
    ensures OccursAt(t + rest, t, 0) && IndexOf(t + rest, t) == 0
  {
    assert (t + rest)[..|t|] == t;
  }
}

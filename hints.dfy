/** Completion of the word before the cursor (app.js, `pythonHint`): the user's
    variables, snippet keywords and library names that start with the word, ranked
    variables first, then snippets, then library names, shorter texts first, and
    cut to twenty. */
module Hints {
  import opened Strings
  import Variables

  /** A snippet keyword and the snippet's display name. */
  datatype SnippetEntry = SnippetEntry(keyword: string, snippetName: string)

  /** A library name with its `type` field; the empty string stands for a missing one. */
  datatype LibraryEntry = LibraryEntry(name: string, entryType: string)

  /** One item of the list: the text inserted and its CSS class. */
  datatype Completion = Completion(text: string, className: string)

  /** The answer: the items and the range `from.ch .. to.ch` they replace on line `row`. */
  datatype Hint = Hint(list: seq<Completion>, row: nat, from: nat, to: nat)

  /** The most items shown. */
  const MaxItems := 20

  /** The class `[\w.]` of characters that make up the word being completed. */
  predicate IsHintChar(c: char) {
    IsWordChar(c) || c == '.'
  }

  /** Start of the run of word characters and dots that ends at `end`. */
  function WordStart(line: string, end: nat): (start: nat)
    requires end <= |line|
    ensures start <= end
  {
    if end > 0 && IsHintChar(line[end - 1]) then WordStart(line, end - 1) else end
  }

  /** `text.toLowerCase().startsWith(prefix)`. */
  predicate Matches(text: string, prefix: string) {
    StartsWith(ToLowerAscii(text), prefix)
  }

  /** `info.type || 'function'`. */
  function IconClass(entryType: string): string {
    if entryType == "" then "function" else entryType
  }

  function VariableHints(vars: seq<Variables.Variable>, prefix: string): seq<Completion> {
    if vars == [] then []
    else
      var v := vars[|vars| - 1];
      VariableHints(vars[..|vars| - 1], prefix) +
      (if Matches(v.name, prefix) then [Completion(v.name, "hint-variable")] else [])
  }

  function SnippetHints(snippets: seq<SnippetEntry>, prefix: string): seq<Completion> {
    if snippets == [] then []
    else
      var s := snippets[|snippets| - 1];
      SnippetHints(snippets[..|snippets| - 1], prefix) +
      (if Matches(s.keyword, prefix) then [Completion(s.keyword, "hint-snippet")] else [])
  }

  function LibraryHints(library: seq<LibraryEntry>, prefix: string): seq<Completion> {
    if library == [] then []
    else
      var e := library[|library| - 1];
      LibraryHints(library[..|library| - 1], prefix) +
      (if Matches(e.name, prefix) then [Completion(e.name, "hint-" + IconClass(e.entryType))] else [])
  }

  /** Every completion offered, in the order the three sources are visited. */
  function Candidates(vars: seq<Variables.Variable>, snippets: seq<SnippetEntry>, library: seq<LibraryEntry>,
                      prefix: string): seq<Completion> {
    VariableHints(vars, prefix) + SnippetHints(snippets, prefix) + LibraryHints(library, prefix)
  }

  // ---------------------------------------------------------------------------
  // The ranking

  /** Variables 0, snippets 1, everything else 2, read off the class name. */
  function Score(c: Completion): nat {
    if Contains(c.className, "variable") then 0
    else if Contains(c.className, "snippet") then 1
    else 2
  }

  /** The comparator: `a` may come before `b`. */
  predicate Before(a: Completion, b: Completion) {
    Score(a) < Score(b) || (Score(a) == Score(b) && |a.text| <= |b.text|)
  }

  predicate Ranked(cs: seq<Completion>) {
    forall i, j :: 0 <= i < j < |cs| ==> Before(cs[i], cs[j])
  }

  /** Puts `c` in front of the first item it may precede. */
  function Insert(c: Completion, cs: seq<Completion>): (r: seq<Completion>)
    ensures multiset(r) == multiset(cs) + multiset{c}
  {
    if cs == [] then [c]
    else if Before(c, cs[0]) then [c] + cs
    else
      assert cs == [cs[0]] + cs[1..];
      [cs[0]] + Insert(c, cs[1..])
  }

  /** `x` may precede every item of `cs`. */
  predicate AllAfter(x: Completion, cs: seq<Completion>) {
    forall j :: 0 <= j < |cs| ==> Before(x, cs[j])
  }

  lemma {:induction false} InsertAfter(x: Completion, c: Completion, cs: seq<Completion>)
    requires AllAfter(x, cs) && Before(x, c)
    ensures AllAfter(x, Insert(c, cs))
  {
    if cs != [] && !Before(c, cs[0]) {
      InsertAfter(x, c, cs[1..]);
    }
  }

  lemma {:induction false} InsertRanked(c: Completion, cs: seq<Completion>)
    requires Ranked(cs)
    ensures Ranked(Insert(c, cs))
  {
    if cs != [] {
      if Before(c, cs[0]) {
        assert AllAfter(c, cs);
      } else {
        InsertRanked(c, cs[1..]);
        InsertAfter(cs[0], c, cs[1..]);
      }
    }
  }

  /** `Array.prototype.sort` with the comparator: a stable sort. */
  function SortHints(cs: seq<Completion>): (r: seq<Completion>)
    ensures multiset(r) == multiset(cs)
    ensures Ranked(r)
  {
    if cs == [] then []
    else
      assert cs == [cs[0]] + cs[1..];
      var sorted := SortHints(cs[1..]);
      InsertRanked(cs[0], sorted);
      Insert(cs[0], sorted)
  }

  /** The items of `cs` with the same rank as `k`, in order. */
  function SameRank(cs: seq<Completion>, k: Completion): seq<Completion> {
    if cs == [] then []
    else (if Before(cs[0], k) && Before(k, cs[0]) then [cs[0]] else []) + SameRank(cs[1..], k)
  }

  lemma {:induction false} InsertSameRank(c: Completion, cs: seq<Completion>, k: Completion)
    ensures SameRank(Insert(c, cs), k) ==
            (if Before(c, k) && Before(k, c) then [c] else []) + SameRank(cs, k)
  {
    if cs != [] && !Before(c, cs[0]) {
      InsertSameRank(c, cs[1..], k);
      var r := [cs[0]] + Insert(c, cs[1..]);
      assert r[1..] == Insert(c, cs[1..]);
    }
  }

  /** The sort is stable: items of equal rank keep the order they were found in. */
  lemma {:induction false} SortStable(cs: seq<Completion>, k: Completion)
    ensures SameRank(SortHints(cs), k) == SameRank(cs, k)
  {
    if cs != [] {
      SortStable(cs[1..], k);
      InsertSameRank(cs[0], SortHints(cs[1..]), k);
    }
  }

  /** In a ranked list all variables come first, then snippets, then the rest, and
      within one group shorter texts come first. */
  lemma RankedOrder(cs: seq<Completion>, i: int, j: int)
    requires Ranked(cs) && 0 <= i < j < |cs|
    ensures Score(cs[i]) <= Score(cs[j])
    ensures Score(cs[i]) == Score(cs[j]) ==> |cs[i].text| <= |cs[j].text|
  {
    assert Before(cs[i], cs[j]);
  }

  /** The three kinds of items score 0, 1 and 2, as long as a library type does not
      itself mention `variable` or `snippet`. */
  lemma Scores(name: string, entryType: string)
    ensures Score(Completion(name, "hint-variable")) == 0
    ensures Score(Completion(name, "hint-snippet")) == 1
    ensures !Contains(IconClass(entryType), "variable") && !Contains(IconClass(entryType), "snippet") ==>
      Score(Completion(name, "hint-" + IconClass(entryType))) == 2
  {
    ScoreVariable(name);
    ScoreSnippet(name);
    var icon := IconClass(entryType);
    if !Contains(icon, "variable") && !Contains(icon, "snippet") {
      ScoreLibrary(name, icon);
    }
  }

  lemma ScoreVariable(name: string)
    ensures Score(Completion(name, "hint-variable")) == 0
  {
    assert OccursAt("hint-variable", "variable", 5) by {
      assert "hint-variable"[5..13] == "variable";
    }
  }

  lemma ScoreSnippet(name: string)
    ensures Score(Completion(name, "hint-snippet")) == 1
  {
    ContainsAfterPrefix("hint-", "snippet", "variable");
    ShorterLacks("snippet", "variable");
    assert "hint-" + "snippet" == "hint-snippet";
    assert OccursAt("hint-snippet", "snippet", 5) by {
      assert "hint-snippet"[5..12] == "snippet";
    }
  }

  lemma ScoreLibrary(name: string, icon: string)
    requires !Contains(icon, "variable") && !Contains(icon, "snippet")
    ensures Score(Completion(name, "hint-" + icon)) == 2
  {
    ContainsAfterPrefix("hint-", icon, "variable");
    ContainsAfterPrefix("hint-", icon, "snippet");
  }

  /** A text shorter than a pattern does not contain it. */
  lemma ShorterLacks(s: string, p: string)
    requires |s| < |p|
    ensures !Contains(s, p)
  {
  }

  // ---------------------------------------------------------------------------
  // The hint function

  method PythonHint(line: string, end: nat, row: nat, vars: seq<Variables.Variable>,
                    snippets: seq<SnippetEntry>, library: seq<LibraryEntry>)
    returns (r: Option<Hint>)
    requires end <= |line|
    ensures var prefix := ToLowerAscii(line[WordStart(line, end)..end]);
      r.None? <==> |prefix| < 2 || Candidates(vars, snippets, library, prefix) == []
    ensures r.Some? ==>
      var prefix := ToLowerAscii(line[WordStart(line, end)..end]);
      var ranked := SortHints(Candidates(vars, snippets, library, prefix));
      r.value == Hint(ranked[..if |ranked| < MaxItems then |ranked| else MaxItems], row, WordStart(line, end), end)
  {
    var start: int := end;
    while start > 0 && IsHintChar(line[start - 1])
      invariant 0 <= start <= end && WordStart(line, start) == WordStart(line, end)
    {
      start := start - 1;
    }

    var prefix := ToLowerAscii(line[start..end]);
    if |prefix| < 2 {
      return None;
    }

    var completions: seq<Completion> := [];
    for i := 0 to |vars|
      invariant completions == VariableHints(vars[..i], prefix)
    {
      if Matches(vars[i].name, prefix) {
        completions := completions + [Completion(vars[i].name, "hint-variable")];
      }
      assert vars[..i + 1][..i] == vars[..i];
    }
    assert vars[..|vars|] == vars;
    ghost var fromVars := completions;

    for i := 0 to |snippets|
      invariant completions == fromVars + SnippetHints(snippets[..i], prefix)
    {
      if Matches(snippets[i].keyword, prefix) {
        completions := completions + [Completion(snippets[i].keyword, "hint-snippet")];
      }
      assert snippets[..i + 1][..i] == snippets[..i];
    }
    assert snippets[..|snippets|] == snippets;
    ghost var fromSnippets := completions;

    for i := 0 to |library|
      invariant completions == fromSnippets + LibraryHints(library[..i], prefix)
    {
      var e := library[i];
      if Matches(e.name, prefix) {
        var iconClass := if e.entryType == "" then "function" else e.entryType;
        completions := completions + [Completion(e.name, "hint-" + iconClass)];
      }
      assert library[..i + 1][..i] == library[..i];
    }
    assert library[..|library|] == library;

    var ranked := SortHints(completions);
    if |completions| == 0 {
      return None;
    }
    r := Some(Hint(ranked[..if |ranked| < MaxItems then |ranked| else MaxItems], row, start, end));
  }

  // ---------------------------------------------------------------------------
  // Properties of the answer

  /** The word before the cursor is the longest run of `[\w.]` ending there. */
  lemma {:induction false} WordStartIsWord(line: string, end: nat)
    requires end <= |line|
    ensures forall i :: WordStart(line, end) <= i < end ==> IsHintChar(line[i])
    ensures WordStart(line, end) == 0 || !IsHintChar(line[WordStart(line, end) - 1])
    decreases end
  {
    if end > 0 && IsHintChar(line[end - 1]) {
      WordStartIsWord(line, end - 1);
    }
  }

  /** Every candidate starts with the typed prefix, ignoring case. */
  lemma {:induction false} CandidatesMatch(vars: seq<Variables.Variable>, snippets: seq<SnippetEntry>,
                                           library: seq<LibraryEntry>, prefix: string)
    ensures forall c :: c in Candidates(vars, snippets, library, prefix) ==> Matches(c.text, prefix)
  {
    VariableHintsMatch(vars, prefix);
    SnippetHintsMatch(snippets, prefix);
    LibraryHintsMatch(library, prefix);
  }

  lemma {:induction false} VariableHintsMatch(vars: seq<Variables.Variable>, prefix: string)
    ensures forall c :: c in VariableHints(vars, prefix) ==> Matches(c.text, prefix) && c.className == "hint-variable"
  {
    if vars != [] {
      VariableHintsMatch(vars[..|vars| - 1], prefix);
    }
  }

  lemma {:induction false} SnippetHintsMatch(snippets: seq<SnippetEntry>, prefix: string)
    ensures forall c :: c in SnippetHints(snippets, prefix) ==> Matches(c.text, prefix) && c.className == "hint-snippet"
  {
    if snippets != [] {
      SnippetHintsMatch(snippets[..|snippets| - 1], prefix);
    }
  }

  lemma {:induction false} LibraryHintsMatch(library: seq<LibraryEntry>, prefix: string)
    ensures forall c :: c in LibraryHints(library, prefix) ==> Matches(c.text, prefix)
  {
    if library != [] {
      LibraryHintsMatch(library[..|library| - 1], prefix);
    }
  }

  /** Every matching variable is offered. */
  lemma {:induction false} VariableOffered(vars: seq<Variables.Variable>, prefix: string, i: int)
    requires 0 <= i < |vars| && Matches(vars[i].name, prefix)
    ensures Completion(vars[i].name, "hint-variable") in VariableHints(vars, prefix)
    decreases |vars|
  {
    if i < |vars| - 1 {
      VariableOffered(vars[..|vars| - 1], prefix, i);
    }
  }

  /** Every matching snippet keyword is offered. */
  lemma {:induction false} SnippetOffered(snippets: seq<SnippetEntry>, prefix: string, i: int)
    requires 0 <= i < |snippets| && Matches(snippets[i].keyword, prefix)
    ensures Completion(snippets[i].keyword, "hint-snippet") in SnippetHints(snippets, prefix)
    decreases |snippets|
  {
    if i < |snippets| - 1 {
      SnippetOffered(snippets[..|snippets| - 1], prefix, i);
    }
  }

  /** Every matching library name is offered, with the class of its type. */
  lemma {:induction false} LibraryOffered(library: seq<LibraryEntry>, prefix: string, i: int)
    requires 0 <= i < |library| && Matches(library[i].name, prefix)
    ensures Completion(library[i].name, "hint-" + IconClass(library[i].entryType)) in LibraryHints(library, prefix)
    decreases |library|
  {
    if i < |library| - 1 {
      LibraryOffered(library[..|library| - 1], prefix, i);
    }
  }

  /** The list shown holds at most twenty ranked candidates; when there are twenty or
      fewer, it holds every one of them. */
  lemma ShownList(cs: seq<Completion>)
    ensures var ranked := SortHints(cs);
      var shown := ranked[..if |ranked| < MaxItems then |ranked| else MaxItems];
      |shown| <= MaxItems && Ranked(shown) &&
      (forall c :: c in shown ==> c in cs) &&
      (|cs| <= MaxItems ==> multiset(shown) == multiset(cs))
  {
    var ranked := SortHints(cs);
    var n := if |ranked| < MaxItems then |ranked| else MaxItems;
    SameSize(ranked, cs);
    RankedPrefix(ranked, n);
    PrefixFrom(ranked, cs, n);
    if |cs| <= MaxItems {
      assert ranked[..n] == ranked;
    }
  }

  lemma SameSize(r: seq<Completion>, cs: seq<Completion>)
    requires multiset(r) == multiset(cs)
    ensures |r| == |cs|
  {
    assert |multiset(r)| == |multiset(cs)|;
  }

  lemma RankedPrefix(r: seq<Completion>, n: int)
    requires Ranked(r) && 0 <= n <= |r|
    ensures Ranked(r[..n])
  {
  }

  lemma PrefixFrom(r: seq<Completion>, cs: seq<Completion>, n: int)
    requires multiset(r) == multiset(cs) && 0 <= n <= |r|
    ensures forall c :: c in r[..n] ==> c in cs
  {
    forall c | c in r[..n]
      ensures c in cs
    {
      assert c in multiset(r);
      assert c in multiset(cs);
    }
  }
}

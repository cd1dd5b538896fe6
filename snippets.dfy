/** Snippet expansion text routines of the editor (app.js): splitting the text typed
    after a snippet keyword into arguments, and putting those arguments into the
    snippet's backtick placeholders `` `1 ``, `` `2 ``, ... */
module Snippets {
  import opened Strings

  // ---------------------------------------------------------------------------
  // parseSnippetArgs
  // ---------------------------------------------------------------------------

  /** The loop state of the tokenizer: the arguments pushed so far, the argument
      being built, whether a quoted run is open and the quote that opened it
      (the empty string when none is open, as in the source). */
  datatype ArgState = ArgState(args: seq<string>, current: string, inQuote: bool, quoteChar: string)

  const Start := ArgState([], "", false, "")

  predicate IsQuote(c: char) {
    c == '"' || c == '\''
  }

  /** One pass of the loop body over character `c`. */
  function Step(st: ArgState, c: char): ArgState {
    if IsQuote(c) && !st.inQuote then st.(inQuote := true, quoteChar := [c])
    else if [c] == st.quoteChar && st.inQuote then st.(inQuote := false, quoteChar := "")
    else if c == ' ' && !st.inQuote then
      if st.current != "" then st.(args := st.args + [st.current], current := "") else st
    else st.(current := st.current + [c])
  }

  /** The loop run over the remaining characters `s`. */
  function Run(s: string, st: ArgState): ArgState
    decreases |s|
  {
    if s == [] then st else Run(s[1..], Step(st, s[0]))
  }

  /** The push of the last argument after the loop. */
  function Finish(st: ArgState): seq<string> {
    if st.current != "" then st.args + [st.current] else st.args
  }

  /** The arguments `parseSnippetArgs(s)` returns. */
  function ParseArgs(s: string): seq<string> {
    Finish(Run(s, Start))
  }

  /** The characters of `s` that land inside some argument: all of them except the
      quote characters that open or close a quoted run and the spaces outside a
      quoted run. `open` is the quote of the run in progress, if any. */
  function KeptFrom(s: string, open: Option<char>): string
    decreases |s|
  {
    if s == [] then []
    else match open
      case None =>
        if IsQuote(s[0]) then KeptFrom(s[1..], Some(s[0]))
        else if s[0] == ' ' then KeptFrom(s[1..], None)
        else [s[0]] + KeptFrom(s[1..], None)
      case Some(q) =>
        if s[0] == q then KeptFrom(s[1..], None)
        else [s[0]] + KeptFrom(s[1..], open)
  }

  function Kept(s: string): string {
    KeptFrom(s, None)
  }

  function Concat(parts: seq<string>): string {
    if parts == [] then [] else parts[0] + Concat(parts[1..])
  }

  predicate NoneEmpty(parts: seq<string>) {
    forall k :: 0 <= k < |parts| ==> parts[k] != ""
  }

  /** The quote bookkeeping is consistent: a quote is recorded exactly when a run is open. */
  predicate WellFormed(st: ArgState) {
    if st.inQuote then |st.quoteChar| == 1 && IsQuote(st.quoteChar[0]) else st.quoteChar == ""
  }

  function OpenQuote(st: ArgState): Option<char>
    requires WellFormed(st)
  {
    if st.inQuote then Some(st.quoteChar[0]) else None
  }

  method ParseSnippetArgs(argsString: string) returns (args: seq<string>)
    ensures args == ParseArgs(argsString)
    ensures NoneEmpty(args)
    ensures Concat(args) == Kept(argsString)
  {
    args := [];
    var current := "";
    var inQuote := false;
    var quoteChar := "";
    for i := 0 to |argsString|
      invariant Run(argsString[i..], ArgState(args, current, inQuote, quoteChar)) == Run(argsString, Start)
    {
      var c := argsString[i];
      assert argsString[i..][1..] == argsString[i + 1..];
      if IsQuote(c) && !inQuote {
        inQuote := true;
        quoteChar := [c];
      } else if [c] == quoteChar && inQuote {
        inQuote := false;
        quoteChar := "";
      } else if c == ' ' && !inQuote {
        if current != "" {
          args := args + [current];
          current := "";
        }
      } else {
        current := current + [c];
      }
    }
    if current != "" {
      args := args + [current];
    }
    ParseArgsNoneEmpty(argsString);
    ParseArgsKeepsText(argsString);
  }

  lemma {:induction false} ConcatAppend(parts: seq<string>, x: string)
    ensures Concat(parts + [x]) == Concat(parts) + x
    decreases |parts|
  {
    if parts != [] {
      assert (parts + [x])[1..] == parts[1..] + [x];
      ConcatAppend(parts[1..], x);
    }
  }

  lemma StepWellFormed(st: ArgState, c: char)
    requires WellFormed(st)
    ensures WellFormed(Step(st, c))
  {
  }

  /** Arguments are only pushed when non-empty. */
  lemma {:induction false} RunNoneEmpty(s: string, st: ArgState)
    requires NoneEmpty(st.args)
    ensures NoneEmpty(Run(s, st).args)
    decreases |s|
  {
    if s != [] {
      RunNoneEmpty(s[1..], Step(st, s[0]));
    }
  }

  /** `parseSnippetArgs` never returns an empty argument. */
  lemma ParseArgsNoneEmpty(s: string)
    ensures NoneEmpty(ParseArgs(s))
  {
    RunNoneEmpty(s, Start);
  }

  /** The loop loses exactly the delimiting quotes and the unquoted spaces. */
  lemma {:induction false} RunKeepsText(s: string, st: ArgState)
    requires WellFormed(st)
    ensures Concat(Finish(Run(s, st))) == Concat(st.args) + st.current + KeptFrom(s, OpenQuote(st))
    decreases |s|
  {
    if s == [] {
      if st.current != "" { ConcatAppend(st.args, st.current); }
    } else {
      StepWellFormed(st, s[0]);
      RunKeepsText(s[1..], Step(st, s[0]));
      StepKeepsText(st, s);
    }
  }

  /** One step moves text from the input to the arguments without losing any. */
  lemma StepKeepsText(st: ArgState, s: string)
    requires WellFormed(st) && s != []
    ensures WellFormed(Step(st, s[0]))
    ensures var next := Step(st, s[0]);
      Concat(next.args) + next.current + KeptFrom(s[1..], OpenQuote(next)) ==
      Concat(st.args) + st.current + KeptFrom(s, OpenQuote(st))
  {
    var c := s[0];
    var rest := KeptFrom(s[1..], if IsQuote(c) && !st.inQuote then Some(c)
                                 else if st.inQuote && c != st.quoteChar[0] then OpenQuote(st)
                                 else None);
    StepWellFormed(st, c);
    if st.inQuote {
      assert [c] == st.quoteChar <==> c == st.quoteChar[0];
    }
    if IsQuote(c) && !st.inQuote {
    } else if [c] == st.quoteChar && st.inQuote {
    } else if c == ' ' && !st.inQuote {
      if st.current != "" {
        ConcatAppend(st.args, st.current);
      }
    } else {
      AppendAssoc(Concat(st.args) + st.current, [c], rest);
      AppendAssoc(Concat(st.args), st.current, [c]);
    }
  }

  /** Joining the arguments gives the input without its delimiting quotes and unquoted spaces. */
  lemma ParseArgsKeepsText(s: string)
    ensures Concat(ParseArgs(s)) == Kept(s)
  {
    RunKeepsText(s, Start);
  }

  predicate Plain(w: string) {
    forall i :: 0 <= i < |w| ==> w[i] != ' ' && !IsQuote(w[i])
  }

  /** Outside quotes, a run of ordinary characters is appended to the current argument. */
  lemma {:induction false} RunPlain(w: string, r: string, st: ArgState)
    requires Plain(w) && !st.inQuote
    ensures Run(w + r, st) == Run(r, st.(current := st.current + w))
    decreases |w|
  {
    if w == [] {
      assert w + r == r;
      assert st.current + w == st.current;
    } else {
      assert (w + r)[0] == w[0] && (w + r)[1..] == w[1..] + r;
      RunPlain(w[1..], r, Step(st, w[0]));
      assert st.current + [w[0]] + w[1..] == st.current + w;
    }
  }

  /** Inside a quoted run every character but the closing quote is kept, spaces included. */
  lemma {:induction false} RunQuoted(p: string, q: char, r: string, st: ArgState)
    requires IsQuote(q) && q !in p && st.inQuote && st.quoteChar == [q]
    ensures Run(p + [q] + r, st) == Run(r, st.(current := st.current + p, inQuote := false, quoteChar := ""))
    decreases |p|
  {
    if p == [] {
      assert p + [q] + r == [q] + r;
      assert ([q] + r)[0] == q && ([q] + r)[1..] == r;
      assert st.current + p == st.current;
    } else {
      assert (p + [q] + r)[0] == p[0] && (p + [q] + r)[1..] == p[1..] + [q] + r;
      assert [p[0]] != [q];
      RunQuoted(p[1..], q, r, Step(st, p[0]));
      assert st.current + [p[0]] + p[1..] == st.current + p;
    }
  }

  /** Words without spaces or quotes, joined by single spaces, are split back into the same words. */
  lemma {:induction false} ParseJoinedWords(words: seq<string>)
    requires forall k :: 0 <= k < |words| ==> words[k] != "" && Plain(words[k])
    ensures ParseArgs(Join(words, " ")) == words
  {
    RunWords(words, []);
  }

  lemma {:induction false} RunWords(words: seq<string>, done: seq<string>)
    requires forall k :: 0 <= k < |words| ==> words[k] != "" && Plain(words[k])
    ensures Finish(Run(Join(words, " "), ArgState(done, "", false, ""))) == done + words
    decreases |words|
  {
    if |words| == 1 {
      OneWord(words[0], done);
      assert done + words == done + [words[0]];
    } else if |words| > 1 {
      JoinHead(words, " ");
      WordThenRest(words[0], Join(words[1..], " "), done);
      RunWords(words[1..], done + [words[0]]);
      assert done + [words[0]] + words[1..] == done + words;
    }
  }

  lemma OneWord(w: string, done: seq<string>)
    requires w != "" && Plain(w)
    ensures Finish(Run(w, ArgState(done, "", false, ""))) == done + [w]
  {
    var st := ArgState(done, "", false, "");
    RunPlain(w, [], st);
    assert w + [] == w;
    assert "" + w == w;
  }

  lemma WordThenRest(w: string, rest: string, done: seq<string>)
    requires w != "" && Plain(w)
    ensures Run(w + (" " + rest), ArgState(done, "", false, "")) == Run(rest, ArgState(done + [w], "", false, ""))
  {
    var st := ArgState(done, "", false, "");
    RunPlain(w, " " + rest, st);
    assert "" + w == w;
    RunSpace(rest, st.(current := w));
  }

  lemma JoinHead(words: seq<string>, sep: string)
    requires |words| >= 2
    ensures Join(words, sep) == words[0] + (sep + Join(words[1..], sep))
  {
  }

  /** An unquoted space ends a non-empty argument. */
  lemma RunSpace(r: string, st: ArgState)
    requires !st.inQuote && st.current != ""
    ensures Run([' '] + r, st) == Run(r, st.(args := st.args + [st.current], current := ""))
  {
    assert ([' '] + r)[0] == ' ' && ([' '] + r)[1..] == r;
  }

  /** A quote outside a quoted run opens one and is dropped. */
  lemma RunOpen(q: char, r: string, st: ArgState)
    requires IsQuote(q) && !st.inQuote
    ensures Run([q] + r, st) == Run(r, st.(inQuote := true, quoteChar := [q]))
  {
    assert ([q] + r)[0] == q && ([q] + r)[1..] == r;
  }

  /** A word followed by a quoted phrase gives two arguments, and the phrase keeps
      its spaces: `n 'hello world'` gives `n` and `hello world`. */
  lemma QuotedPhrase(w: string, q: char, phrase: string)
    requires w != "" && Plain(w)
    requires IsQuote(q) && q !in phrase && phrase != ""
    ensures ParseArgs(w + [' '] + [q] + phrase + [q]) == [w, phrase]
  {
    var tail3 := phrase + [q] + [];
    var tail2 := [q] + tail3;
    var tail1 := [' '] + tail2;
    var st1 := ArgState([], w, false, "");
    var st2 := ArgState([w], "", false, "");
    var st3 := ArgState([w], "", true, [q]);
    PhraseLayout(w, q, phrase);
    calc {
      Run(w + tail1, Start);
      { RunPlain(w, tail1, Start); assert "" + w == w; }
      Run(tail1, st1);
      { RunSpace(tail2, st1); assert [] + [w] == [w]; }
      Run(tail2, st2);
      { RunOpen(q, tail3, st2); }
      Run(tail3, st3);
      { RunQuoted(phrase, q, [], st3); assert "" + phrase == phrase; }
      Run([], ArgState([w], phrase, false, ""));
    }
  }

  lemma PhraseLayout(w: string, q: char, phrase: string)
    ensures w + [' '] + [q] + phrase + [q] == w + ([' '] + ([q] + (phrase + [q] + [])))
  {
  }

  /** The worked example of the source's documentation. */
  lemma QuotedExample()
    ensures ParseArgs("n 'hello world'") == ["n", "hello world"]
  {
    QuotedPhrase("n", '\'', "hello world");
    assert "n" + [' '] + ['\''] + "hello world" + ['\''] == "n 'hello world'";
  }

  /** The other worked example: `10 arr[i]`. */
  lemma PlainExample()
    ensures ParseArgs("10 arr[i]") == ["10", "arr[i]"]
  {
    assert Join(["10", "arr[i]"], " ") == "10 arr[i]";
    ParseJoinedWords(["10", "arr[i]"]);
  }

  // ---------------------------------------------------------------------------
  // replaceSnippetPlaceholders
  // ---------------------------------------------------------------------------

  /** The placeholder for the `k`-th argument: a backtick and `k` in decimal. */
  function Placeholder(k: nat): (p: string)
    ensures |p| >= 2 && p[0] == '`'
  {
    "`" + NatToString(k)
  }

  /** The text after the first `n` passes of the source's loop: pass `k` replaces
      every `` `k `` present at that moment with the `k`-th argument. */
  function ReplacePasses(code: string, args: seq<string>, n: nat): string
    requires n <= |args|
  {
    if n == 0 then code
    else ReplaceAll(ReplacePasses(code, args, n - 1), Placeholder(n), args[n - 1])
  }

  method ReplaceSnippetPlaceholders(code: string, args: seq<string>) returns (result: string)
    ensures result == ReplacePasses(code, args, |args|)
    ensures args == [] ==> result == code
  {
    result := code;
    for i := 0 to |args|
      invariant result == ReplacePasses(code, args, i)
    {
      result := ReplaceAll(result, Placeholder(i + 1), args[i]);
    }
  }

  predicate NoBacktick(s: string) {
    '`' !in s
  }

  lemma NoBacktickNoPlaceholder(s: string, k: nat)
    requires NoBacktick(s)
    ensures !Contains(s, Placeholder(k))
  {
  }

  /** Text without a backtick passes through the remaining passes unchanged. */
  lemma {:induction false} PassesKeepPlainText(code: string, args: seq<string>, n: nat)
    requires n <= |args|
    requires NoBacktick(code)
    requires forall j :: 0 <= j < |args| ==> NoBacktick(args[j])
    ensures ReplacePasses(code, args, n) == code
  {
    if n > 0 {
      PassesKeepPlainText(code, args, n - 1);
      NoBacktickNoPlaceholder(code, n);
      ReplaceAllAbsent(code, Placeholder(n), args[n - 1]);
    }
  }

  lemma TenInDecimal()
    ensures Placeholder(10) == "`10" && Placeholder(1) == "`1"
  {
    assert NatToString(1) == "1";
    assert NatToString(10) == NatToString(1) + [DigitChar(0)];
  }

  lemma FirstPassOnTen(a: string)
    ensures ReplaceAll("`10", "`1", a) == a + "0"
  {
    var s := "`10";
    assert s[..2] == "`1" && s[2..] == "0";
    assert ReplaceAll("0", "`1", a) == "0";
  }

  /** As written: with ten or more arguments, pass 1 rewrites `` `10 `` as the first
      argument followed by `0`, so the tenth argument never appears. */
  lemma TenthPlaceholderAsWritten(args: seq<string>)
    requires |args| >= 10
    requires forall j :: 0 <= j < |args| ==> NoBacktick(args[j])
    ensures ReplacePasses(Placeholder(10), args, |args|) == args[0] + "0"
  {
    TenInDecimal();
    FirstPassOnTen(args[0]);
    assert ReplacePasses(Placeholder(10), args, 1) == args[0] + "0";
    PassesFrom(args[0] + "0", Placeholder(10), args, 1, |args|);
  }

  lemma {:induction false} PassesFrom(s: string, code: string, args: seq<string>, m: nat, n: nat)
    requires m <= n <= |args|
    requires ReplacePasses(code, args, m) == s
    requires NoBacktick(s)
    requires forall j :: 0 <= j < |args| ==> NoBacktick(args[j])
    ensures ReplacePasses(code, args, n) == s
    decreases n - m
  {
    if m < n {
      NoBacktickNoPlaceholder(s, m + 1);
      ReplaceAllAbsent(s, Placeholder(m + 1), args[m]);
      PassesFrom(s, code, args, m + 1, n);
    }
  }

  /** The argument number a backtick at the head of `code` stands for, if any: the
      whole run of digits after it, written without leading zeros, between 1 and
      the number of arguments. */
  function PlaceholderAt(code: string, count: nat): (r: Option<(nat, nat)>)
    ensures r.Some? ==> 2 <= r.value.1 <= |code| && 1 <= r.value.0 <= count
  {
    if code == [] || code[0] != '`' then None
    else
      var d := DigitRun(code[1..]);
      if d == 0 || code[1] == '0' then None
      else
        var v := DecimalValue(code[1..][..d]);
        if 1 <= v <= count then Some((v, 1 + d)) else None
  }

  /** Corrected substitution: one left-to-right pass in which each placeholder is
      read with all of its digits and replaced by its argument; argument text is
      copied, never scanned again. */
  function Substitute(code: string, args: seq<string>): string
    decreases |code|
  {
    if code == [] then []
    else
      var (text, len) := Head(code, args);
      text + Substitute(code[len..], args)
  }

  /** What one step of the substitution emits and how much of the code it consumes:
      a placeholder's argument, or a single character copied. */
  function Head(code: string, args: seq<string>): (r: (string, nat))
    requires code != []
    ensures 1 <= r.1 <= |code|
  {
    match PlaceholderAt(code, |args|)
    case Some((v, len)) => (args[v - 1], len)
    case None => ([code[0]], 1)
  }

  /** With no arguments the code comes back unchanged. */
  lemma {:induction false} SubstituteNoArgs(code: string)
    ensures Substitute(code, []) == code
    decreases |code|
  {
    if code != [] {
      SubstituteNoArgs(code[1..]);
    }
  }

  /** Reading a placeholder at the head of `x` does not look past `x` when what
      follows does not start with a digit. */
  lemma PlaceholderAtAppend(x: string, y: string, count: nat)
    requires x != []
    requires y == [] || !IsDigit(y[0])
    ensures PlaceholderAt(x + y, count) == PlaceholderAt(x, count)
  {
    var xy := x + y;
    assert xy[0] == x[0];
    if x[0] == '`' {
      assert xy[1..] == x[1..] + y;
      DigitRunAppend(x[1..], y);
      var d := DigitRun(x[1..]);
      if d > 0 {
        assert xy[1] == x[1];
      }
    }
  }

  /** Each placeholder in range is replaced by its own argument, `` `10 `` included. */
  lemma PlaceholderReplaced(k: nat, rest: string, args: seq<string>)
    requires 1 <= k <= |args|
    requires rest == [] || !IsDigit(rest[0])
    ensures Substitute(Placeholder(k) + rest, args) == args[k - 1] + Substitute(rest, args)
  {
    var p := Placeholder(k);
    HeadOfPlaceholder(k, args);
    HeadAppend(p, rest, args);
    SubstituteStep(p + rest, args);
    assert (p + rest)[|p|..] == rest;
  }

  lemma HeadOfPlaceholder(k: nat, args: seq<string>)
    requires 1 <= k <= |args|
    ensures Head(Placeholder(k), args) == (args[k - 1], |Placeholder(k)|)
  {
    PlaceholderReads(k, |args|);
  }

  lemma SubstituteStep(code: string, args: seq<string>)
    requires code != []
    ensures Substitute(code, args) == Head(code, args).0 + Substitute(code[Head(code, args).1..], args)
  {
  }

  /** A placeholder in range is read with all its digits as its own number. */
  lemma PlaceholderReads(k: nat, count: nat)
    requires 1 <= k <= count
    ensures PlaceholderAt(Placeholder(k), count) == Some((k, |Placeholder(k)|))
  {
    var t := NatToString(k);
    var p := Placeholder(k);
    assert p[1..] == t;
    DigitRunAll(t);
    assert t[..|t|] == t;
    DecimalOfNatToString(k);
    assert p[1] == t[0];
  }

  /** The tenth placeholder, which the source turns into the first argument and a `0`. */
  lemma TenthPlaceholderCorrected(args: seq<string>)
    requires |args| >= 10
    ensures Substitute(Placeholder(10), args) == args[9]
  {
    PlaceholderAlone(10, args);
  }

  lemma PlaceholderAlone(k: nat, args: seq<string>)
    requires 1 <= k <= |args|
    ensures Substitute(Placeholder(k), args) == args[k - 1]
  {
    var p := Placeholder(k);
    PlaceholderReplaced(k, [], args);
    assert p + [] == p;
    assert args[k - 1] + [] == args[k - 1];
  }

  /** Substitution works piece by piece: text can be cut anywhere that does not split a run of digits. */
  lemma {:induction false} SubstituteAppend(x: string, y: string, args: seq<string>)
    requires y == [] || !IsDigit(y[0])
    ensures Substitute(x + y, args) == Substitute(x, args) + Substitute(y, args)
    decreases |x|
  {
    if x == [] {
      assert x + y == y;
    } else {
      var (head, len) := Head(x, args);
      HeadAppend(x, y, args);
      DropAppend(x, y, len);
      SubstituteAppend(x[len..], y, args);
      AppendAssoc(head, Substitute(x[len..], args), Substitute(y, args));
    }
  }

  lemma HeadAppend(x: string, y: string, args: seq<string>)
    requires x != [] && (y == [] || !IsDigit(y[0]))
    ensures Head(x + y, args) == Head(x, args)
  {
    PlaceholderAtAppend(x, y, |args|);
    assert (x + y)[0] == x[0];
  }

  lemma DropAppend(x: string, y: string, len: nat)
    requires len <= |x|
    ensures (x + y)[len..] == x[len..] + y
  {
  }

  lemma AppendAssoc(a: string, b: string, c: string)
    ensures a + (b + c) == (a + b) + c
  {
  }
}

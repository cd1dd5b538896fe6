/** The bracket test of the editor's Enter key (app.js, `handleSmartEnter`): when
    the cursor sits just before a closing bracket, the text before the cursor is
    scanned backwards for the open bracket it closes; only then is the closing
    bracket kept on a line of its own. */
module SmartEnter {
  import opened Strings

  /** `{ '[': ']', '{': '}', '(': ')' }` read backwards: the open bracket of a closer. */
  function MatchingOpen(close: char): (r: Option<char>)
    ensures r.Some? <==> close == ']' || close == '}' || close == ')'
    ensures r.Some? ==> r.value != close
  {
    if close == ']' then Some('[')
    else if close == '}' then Some('{')
    else if close == ')' then Some('(')
    else None
  }

  /** Open brackets minus closing brackets in `s`. */
  function Net(s: string, open: char, close: char): int {
    if s == [] then 0
    else (if s[0] == open then 1 else if s[0] == close then -1 else 0) + Net(s[1..], open, close)
  }

  /** Some open bracket in `s` is not closed before the end of `s`. */
  predicate Unclosed(s: string, open: char, close: char) {
    exists j :: 0 <= j <= |s| && Net(s[j..], open, close) == 1
  }

  /** The scan: `depth` starts at 1, a closer met on the way back adds one, an opener
      takes one away, and the scan stops at depth 0. */
  method BracketDepth(beforeCursor: string, close: char, open: char) returns (depth: int)
    requires open != close
    ensures depth >= 0
    ensures depth == 0 <==> Unclosed(beforeCursor, open, close)
    ensures depth > 0 ==> depth == 1 - Net(beforeCursor, open, close)
  {
    depth := 1;
    var i := |beforeCursor| - 1;
    while i >= 0 && depth > 0
      invariant -1 <= i < |beforeCursor|
      invariant depth == 1 - Net(beforeCursor[i + 1..], open, close) && depth >= 0
      invariant forall k :: i + 1 < k <= |beforeCursor| ==> Net(beforeCursor[k..], open, close) <= 0
      decreases i
    {
      assert beforeCursor[i..] == [beforeCursor[i]] + beforeCursor[i + 1..];
      if beforeCursor[i] == close {
        depth := depth + 1;
      }
      if beforeCursor[i] == open {
        depth := depth - 1;
      }
      i := i - 1;
    }
    if depth > 0 {
      assert beforeCursor[0..] == beforeCursor;
      assert forall k :: 0 <= k <= |beforeCursor| ==> Net(beforeCursor[k..], open, close) <= 0;
    } else {
      assert Net(beforeCursor[i + 1..], open, close) == 1;
    }
  }

  /** Enter keeps the closing bracket on its own line exactly when the character after
      the cursor closes a bracket that is open before the cursor. */
  method KeepsClosingBracket(beforeCursor: string, afterCursor: string) returns (keep: bool)
    ensures keep <==> |afterCursor| > 0 && MatchingOpen(afterCursor[0]).Some? &&
                      Unclosed(beforeCursor, MatchingOpen(afterCursor[0]).value, afterCursor[0])
  {
    keep := false;
    if |afterCursor| > 0 {
      var nextChar := afterCursor[0];
      var matchingOpen := MatchingOpen(nextChar);
      if matchingOpen.Some? {
        var depth := BracketDepth(beforeCursor, nextChar, matchingOpen.value);
        keep := depth == 0;
      }
    }
  }

  lemma {:induction false} NetAppend(a: string, b: string, open: char, close: char)
    ensures Net(a + b, open, close) == Net(a, open, close) + Net(b, open, close)
    decreases |a|
  {
    if a == [] {
      assert a + b == b;
    } else {
      assert (a + b)[1..] == a[1..] + b;
      NetAppend(a[1..], b, open, close);
    }
  }

  lemma {:induction false} NetWithout(s: string, open: char, close: char)
    requires open !in s && close !in s
    ensures Net(s, open, close) == 0
    decreases |s|
  {
    if s != [] {
      NetWithout(s[1..], open, close);
    }
  }

  /** An open bracket followed by text without brackets of its kind is unclosed:
      `[1, 2, 3` before `]`. */
  lemma OpenThenPlain(prefix: string, open: char, close: char, text: string)
    requires open != close && open !in text && close !in text
    ensures Unclosed(prefix + [open] + text, open, close)
  {
    var s := prefix + [open] + text;
    assert s[|prefix|..] == [open] + text;
    NetAppend([open], text, open, close);
    NetWithout(text, open, close);
  }

  /** Without an open bracket there is nothing to close. */
  lemma {:induction false} NoOpenNothingUnclosed(s: string, open: char, close: char)
    requires open !in s
    ensures !Unclosed(s, open, close)
  {
    forall j | 0 <= j <= |s|
      ensures Net(s[j..], open, close) <= 0
    {
      NetNoOpen(s[j..], open, close);
    }
  }

  lemma {:induction false} NetNoOpen(s: string, open: char, close: char)
    requires open !in s
    ensures Net(s, open, close) <= 0
    decreases |s|
  {
    if s != [] {
      NetNoOpen(s[1..], open, close);
    }
  }
}

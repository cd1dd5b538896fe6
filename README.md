# CodeForces IDE: text routines and sign-in state, in Dafny

This project models the small sequential routines of a browser editor for
competitive programming, and proves properties about them. The editor itself is
JavaScript. Two of its files are modelled:

- `app.js`:
  - the snippet argument tokenizer and placeholder substitution;
  - the stopwatch display;
  - the variable scanner of the variables panel;
  - the whole-program complexity analyser and the per-line complexity gutter;
  - the completion ranking;
  - HTML escaping;
  - the clamp behind "go to line";
  - the bracket test behind the Enter key;
  - the level split of the heap view;
  - the test-case list.
- `auth.js`: the signed-in user, the sign-in and sign-out callback lists, and
  the base64url to base64 alphabet change applied to an ID token's payload.

Each JavaScript regular-expression test that is a genuine heuristic (sorting,
binary search, graphs, DP, list input, and so on) is a field of a datatype of
string predicates (`Complexity.Patterns`, `LineComplexity.LinePatterns`). The
results are proved for every choice of those predicates. Structural tests are
modelled concretely: `trim`, `^for\s+`, `^def\s+(\w+)`, the assignment pattern
of the variable scanner, `includes`, `startsWith`, `indexOf`, `split`/`join`
and `padStart`.

Routines that work by updating variables in a loop are methods with loop
invariants, proved against specification functions. Pure arithmetic and
expressions are functions. State that the source keeps in module variables is
held in classes: `Auth.AuthState` has `googleUser`, `onSignIn` and `onSignOut`,
and `TestCases.TestCaseList` has `testCases`.

Files: `strings.dfy` (the string built-ins), `snippets.dfy`, `timer.dfy`,
`variables.dfy`, `complexity.dfy`, `annotator.dfy`, `hints.dfy`, `html.dfy`,
`navigation.dfy`, `brackets.dfy`, `heap.dfy`, `testcases.dfy`, `auth.dfy`.

Where the code and its comments disagree, the model follows the code:

- `detectComplexity` has a dedent branch whose decrement is commented out, so
  its loop depth counts every loop header. `Complexity.DetectComplexity`
  states this, and `Complexity.SiblingLoops` shows it on two sibling loops.
- The per-line gutter's comment says loops are popped "when dedented". The
  code never pops on a line that starts with `for` or `while` (see Findings).

## Model

| member | source | states |
|---|---|---|
| `Snippets.ParseSnippetArgs` | app.js:771-801 | The character loop returns the arguments of the tokenizer's specification. No argument is empty. Joined together, the arguments are the input without the quotes that open or close a quoted run and without the spaces outside quotes. |
| `Snippets.ParseArgsNoneEmpty` | app.js:786-798 | An argument is only pushed when it is non-empty, so `parseSnippetArgs` never returns `""`. |
| `Snippets.ParseArgsKeepsText` | app.js:777-798 | Concatenating the arguments gives exactly the characters the tokenizer keeps. Only delimiting quotes and unquoted spaces are dropped. |
| `Snippets.QuotedPhrase` | app.js:780-792 | A plain word followed by a quoted phrase gives two arguments, and the phrase keeps its inner spaces. |
| `Snippets.QuotedExample` | app.js:766-770 | The documented example: `n 'hello world'` gives `["n", "hello world"]`. |
| `Snippets.PlainExample` | app.js:766-770 | The documented example: `10 arr[i]` gives `["10", "arr[i]"]`. |
| `Snippets.ParseJoinedWords` | app.js:786-798 | Space-joined words without spaces or quotes are split back into exactly those words. |
| `Snippets.ReplaceSnippetPlaceholders` | app.js:807-817 | The loop result equals the passes of the specification. Pass `k` replaces every `` `k `` present at that moment by argument `k`, for k = 1..n in increasing order. With no arguments the code is returned unchanged. |
| `Snippets.PassesKeepPlainText` | app.js:811-814 | When neither the code nor the arguments contain a backtick, every pass leaves the code unchanged. |
| `Snippets.TenthPlaceholderAsWritten` | app.js:811-814 | As written, with ten or more arguments, `` `10 `` becomes the first argument followed by `0`. |
| `Snippets.SubstituteNoArgs` | app.js:807-817 | Corrected substitution with no arguments returns the code unchanged. |
| `Snippets.PlaceholderReplaced` | app.js:811-814 | Corrected substitution replaces each in-range placeholder, multi-digit ones included, by its own argument. |
| `Snippets.TenthPlaceholderCorrected` | app.js:811-814 | Corrected substitution turns `` `10 `` into the tenth argument. |
| `Snippets.SubstituteAppend` | app.js:807-817 | Corrected substitution distributes over concatenation at any cut that does not split a run of digits. |
| `Timer.DisplayRoundTrip` | app.js:1278-1283 | Reading the display back (hours, then minutes and seconds below 60) gives exactly the elapsed seconds. |
| `Timer.DisplayShape` | app.js:1278-1283 | Below 360000 seconds the display is exactly `HH:MM:SS`: 8 characters, colons at 2 and 5, and two-digit fields with m < 60, s < 60 and h*3600 + m*60 + s == seconds. |
| `Timer.DisplayWidth` | app.js:1279-1282 | The display is 8 characters exactly when the time is below 100 hours. |
| `Timer.FieldFacts` | app.js:1279-1281 | A field is a decimal string of at least two digits that denotes n, with exactly two digits when n < 100. |
| `Timer.Decompose` | app.js:1279-1281 | The div/mod fields recompose the seconds, and minutes and seconds are below 60. |
| `Variables.ParseVariables` | app.js:1167-1195 | Names are pairwise distinct, none of them is t, i, j, k, _ or self, and they appear in first-assignment order. Each is typed by the value of its first assignment. Every tracked assignment's name appears in the result. |
| `Variables.MatchSound` | app.js:1174 | A match of the assignment pattern gives an identifier, and a non-empty value without line terminators that ends the line. |
| `Variables.AssignmentRoundTrip` | app.js:1174 | `name = value` with any blanks around the parts matches with exactly that name and value. |
| `Variables.BlankValue` | app.js:1174 | When only blanks follow `=`, backtracking makes the value the last blank. |
| `Variables.NothingAfterEquals` | app.js:1174 | A line ending right after `=` assigns nothing. |
| `Variables.IntLiteral` | app.js:1182-1184 | A decimal number, with or without trailing blanks, is typed `int`. |
| `Variables.FloatLiteral` | app.js:1182-1187 | `a.b` with decimal `a` and `b` is typed `float`. |
| `Variables.TypeIconsDistinct` | app.js:1197-1200 | Different scanned types get different badges, and only `other` gets `?`. |
| `Complexity.DetectComplexity` | app.js:1428-1528 | The loop depth is the number of loop-header lines. Each flag holds exactly when some trimmed line shows its pattern. Time and space follow the precedence table. The details are exactly those of each line in turn (`DetailsOf`), so each is backed by its line, in line order. |
| `Complexity.ScanLine` | app.js:1446-1495 | One line adds one to the depth exactly when it is a loop header. It sets the recursion, sort, binary-search, graph and DP flags from that line. Its details are those of `LineDetails`: the loop with its depth, the recursive function, the sort, the binary search and the DP pattern, each exactly when its test holds, in that order. |
| `Complexity.DetailsExactly` | app.js:1452-1490 | A detail is recorded for the first `n` lines exactly when one of those lines backs it: no finding is missing and none is made up. |
| `Complexity.ConstantTimeIff` | app.js:1498-1514 | The time is O(1) exactly when there is no recursion, no loop, no sorting and no binary search. |
| `Complexity.RecursionDominates` | app.js:1498-1501 | With recursion, loops, sorting and binary search do not matter. The class is "O(n) with memo" exactly when DP is present. |
| `Complexity.DPNeedsRecursion` | app.js:1498-1514 | Without recursion, the DP flag does not change the time class. |
| `Complexity.TimeMonotone` | app.js:1502-1514 | Without recursion, more loops, sorting or binary search never give a cheaper class. |
| `Complexity.QuadraticSpaceIff` | app.js:1517-1521 | Space is O(n²) exactly with DP or `[[`, and O(1) exactly when no space pattern is present. |
| `Complexity.LoopCountAppend` | app.js:1449-1460 | The loop depth adds up over consecutive pieces of a program: it counts headers, not nesting. |
| `Complexity.SiblingLoops` | app.js:1456-1460 | Two loops one after the other give depth 2, because the decrement is commented out. |
| `Complexity.EveryDefinitionRecursive` | app.js:1463-1471 | As written, any `def name(` line makes the program count as recursive. |
| `Complexity.DefLine` | app.js:1463-1466 | A line `def name(...)` captures `name` and contains `name(`. |
| `Complexity.DefinitionFollowedBy` | app.js:1463-1467 | As written, a program that opens with a definition is reported recursive whatever follows. |
| `Complexity.DefinitionBody` | app.js:1463-1467 | Corrected: with the search limited to the function's body (the lines after the `def` up to the first non-blank, non-comment line indented no deeper), the function is recursive exactly when a body line calls it. |
| `Complexity.TopLevelCallNotRecursion` | app.js:1463-1467 | A function whose body never calls it, followed by a top-level call: recursive as written, not recursive once corrected. |
| `LineComplexity.AnnotateLine` | app.js:1587-1660 | One line pops the dedented loops and pushes a loop header's indentation, keeping the depth counter equal to the stack's length. Its time and space labels are those of the specification. |
| `LineComplexity.UpdateLineComplexity` | app.js:1575-1660 | One label per line, numbered from 1. Each label is computed from the loop stack left by the lines before it. |
| `LineComplexity.HeaderLabel` | app.js:1635-1643 | A loop header ends on top of the stack with its own indentation, and is labelled `n`, `n²` or `n³` by the new depth. |
| `LineComplexity.ZeroTimeIff` | app.js:1601-1660 | A line's time label is `0` exactly when the line is empty or a comment, no loop is open, and it is not taken for a sort or a bisect. |
| `LineComplexity.InsideLoopLabel` | app.js:1652-1660 | Inside open loops, an ordinary line is labelled by the depth, whether or not it appends. |
| `LineComplexity.StackWithinHeaders` | app.js:1584-1595 | The gutter's depth never exceeds the number of loop headers seen. |
| `LineComplexity.QuadraticSpaceIff` | app.js:1611-1633 | The space label is `n²` exactly for a two-dimensional list that no earlier test claimed. |
| `LineComplexity.SiblingLoopsNested` | app.js:1592-1595 | As written, a loop following another at the same or a smaller indentation stays nested inside it and is labelled `n²`. |
| `LineComplexity.SiblingLoopsCorrected` | app.js:1592-1595 | With the dedent applied to loop headers too, the second sibling loop is labelled `n`. |
| `LineComplexity.CorrectedStackIncreasing` | app.js:1592-1595 | With the corrected dedent, open loops have strictly increasing indentation. |
| `LineComplexity.NestedListLinear` | app.js:1620-1633 | As written, `x = [[...` passes the list-creation test first and is labelled `n`. |
| `LineComplexity.NestedListQuadratic` | app.js:1620-1633 | With the two-dimensional test moved first, `x = [[...` is labelled `n²`. |
| `LineComplexity.CorrectedSpaceAgrees` | app.js:1611-1633 | The corrected space label differs from the one as written only on two-dimensional lines, where it is `n²`. |
| `Hints.PythonHint` | app.js:2153-2267 | Returns null exactly when the prefix is shorter than 2 or nothing matches. Otherwise it returns the first at most 20 ranked candidates, over the range `from = start <= end = to`. |
| `Hints.WordStartIsWord` | app.js:2159-2162 | The prefix is the longest run of `[\w.]` ending at the cursor. |
| `Hints.CandidatesMatch` | app.js:2178-2247 | Every candidate starts with the prefix, ignoring case. |
| `Hints.VariableOffered` | app.js:2178-2193 | Every matching variable is offered, as `hint-variable`. |
| `Hints.SnippetOffered` | app.js:2196-2217 | Every matching snippet keyword is offered, as `hint-snippet`. |
| `Hints.LibraryOffered` | app.js:2220-2245 | Every matching library name is offered with class `hint-` plus its type, or `function` when the type is missing. |
| `Hints.SortHints` | app.js:2249-2257 | The sort is a permutation, and its result is ranked: variables < snippets < library, shorter text first. |
| `Hints.SortStable` | app.js:2249-2257 | Items of equal rank keep their found order. |
| `Hints.RankedOrder` | app.js:2250-2256 | In a ranked list, scores never decrease, and within one score, texts never get shorter. |
| `Hints.Scores` | app.js:2251-2254 | Variables score 0, snippets 1, and library entries 2 unless their type mentions `variable` or `snippet`. |
| `Hints.ShownList` | app.js:2263-2266 | The shown list holds at most 20 ranked candidates, and holds all of them when there are at most 20. |
| `Html.EscapeHtmlEach` | app.js:1354-1356 | The four global replacements, `&` first, escape each character on its own. |
| `Html.EscapeHtmlRoundTrip` | app.js:1354-1356 | The escaped text holds no `<`, `>` or `"`, and reading its references back gives the original text. |
| `Html.EscapeHtmlInjective` | app.js:1354-1356 | Different texts escape differently. |
| `Navigation.TargetLine` | app.js:2421 | The 0-based target lies within the document. An in-range line number maps to itself minus one, smaller numbers go to the first line and larger ones to the last. |
| `Navigation.GoToLine` | app.js:2420-2427 | The cursor lands on the clamped target line (`TargetLine` of `lineNum` and the number of lines), which is a line of the document, at column 0 or at that line's end. |
| `Navigation.TargetLineIdempotent` | app.js:2421 | Clamping the line reached lands on it again. |
| `Navigation.TargetLineMonotone` | app.js:2421 | A larger line number never lands on an earlier line. |
| `SmartEnter.MatchingOpen` | app.js:908-918 | Only `]`, `}` and `)` have an open bracket, which differs from the closer. |
| `SmartEnter.BracketDepth` | app.js:919-923 | The backward scan ends at depth 0 exactly when some open bracket before the cursor is unclosed. Otherwise the depth is 1 minus the net bracket count. |
| `SmartEnter.KeepsClosingBracket` | app.js:911-926 | The bracket is kept on its own line exactly when the next character is a closer whose opener is unclosed before the cursor. |
| `SmartEnter.OpenThenPlain` | app.js:919-926 | An opener followed by text without brackets of its kind is unclosed. |
| `SmartEnter.NoOpenNothingUnclosed` | app.js:919-926 | Without an opener there is nothing unclosed. |
| `HeapView.HeapLevels` | app.js:2569-2579 | Level k holds the items at heap positions 2^k-1 up to 2^(k+1)-1, cut at the end. The array is empty exactly when there are no levels. |
| `HeapView.LevelsFlatten` | app.js:2569-2579 | The levels, read in order, are exactly the array. |
| `HeapView.LevelSizes` | app.js:2572-2576 | Every level but the last is full (2^k items), and the last is non-empty. |
| `HeapView.ChildrenOnNextLevel` | app.js:2572-2576 | The children 2i+1 and 2i+2 of an item on level k are on level k+1. |
| `TestCases.TestCaseList.constructor` | app.js:134 | The list starts empty. |
| `TestCases.TestCaseList.AddTestCase` | app.js:1702-1714 | Appends a pending case numbered one more than the number of cases. |
| `TestCases.TestCaseList.DeleteTestCase` | app.js:1716-1720 | Keeps exactly the cases with another id, in order, and keeps ids distinct. |
| `TestCases.TestCaseList.AddTestCaseCorrected` | app.js:1702-1714 | Corrected addition: the new id exceeds every id present, and ids stay distinct. |
| `TestCases.Without` | app.js:1717 | A case remains exactly when it was there and has another id, and the list never grows. |
| `TestCases.WithoutAbsent` | app.js:1717 | Deleting an id no case carries changes nothing. |
| `TestCases.WithoutIdempotent` | app.js:1717 | Deleting twice is deleting once. |
| `TestCases.WithoutNumbered` | app.js:1716-1720 | In a list numbered 1..n, deleting id k removes exactly one case. |
| `TestCases.WithoutKeepsDistinct` | app.js:1716-1720 | Deletion keeps ids distinct. |
| `TestCases.IdCollision` | app.js:1703 | As written, after deleting one of cases 1..n and adding one, two cases share an id. |
| `TestCases.NextId` | app.js:1703 | The corrected id exceeds every id present. |
| `TestCases.NextIdKeepsDistinct` | app.js:1703-1711 | Adding with the corrected id keeps ids distinct. |
| `TestCases.NextIdNumbered` | app.js:1703 | On a list never deleted from, the corrected id equals the id as written. |
| `Auth.AuthState.constructor` | auth.js:14-22 | Nobody is signed in and both callback lists are empty. |
| `Auth.AuthState.GetUserId` | auth.js:136-146 | Returns the user's id exactly when `isSignedIn()` holds, and null otherwise. |
| `Auth.AuthState.OnAuthStateChange` | auth.js:151-157 | `signIn` appends to `onSignIn` and `signOut` appends to `onSignOut`. Any other event changes nothing. |
| `Auth.AuthState.NotifyAuthChange` | auth.js:159-168 | Every callback of the selected list is called in order with the current user. Any event other than `signIn` selects `onSignOut`. A throwing callback does not stop the rest. |
| `Auth.AuthState.SignOutGoogle` | auth.js:121-131 | Afterwards nobody is signed in, `getUserId()` is null, the lists are unchanged, and every sign-out callback was called with null. |
| `Auth.AuthState.HandleCredentialResponse` | auth.js:76-95 | Without a credential nothing changes. When decoding fails, the user is unchanged. Otherwise the user is `{id: sub, name, email, picture, token: credential}` and the sign-in callbacks are called with it. |
| `Auth.PayloadSegment` | auth.js:98-99 | A payload segment exists exactly when the token holds a `.`, and it holds no `.` itself. |
| `Auth.PayloadOfThreeParts` | auth.js:98-99 | In `header.payload.signature` with dot-free header and payload, the segment is the payload. |
| `Auth.PayloadOfTwoParts` | auth.js:98-99 | With a single `.`, the segment is the text after it. |
| `Auth.ToBase64Each` | auth.js:98-100 | The alphabet change maps `-` to `+` and `_` to `/`, keeps every other character and the length, and leaves no `-` or `_`. |
| `Auth.AlphabetRoundTrip` | auth.js:100 | For base64url text, changing to base64 and back gives the text unchanged. |

## Left out

- Python execution in the in-browser runtime (running code, tests, stress tests, variable values, memory estimates): a foreign runtime with asynchronous calls, timings and randomness.
- Editor widget operations (Tab handling, smart space, cursor moves, gutter markers, autocomplete wiring). `Hints.PythonHint` takes the cursor line and column as parameters, and its variables are the result of `Variables.ParseVariables` on the editor's text. `SmartEnter.KeepsClosingBracket` models only the bracket test that decides the edit, not the `else`/`finally`/`try` colon case or the edit itself.
- DOM rendering, modals, tabs, theme, toasts and resizers: user interface. The heap view's HTML strings become the rows of `HeapView.HeapLevels`. The `JSON.parse` of the value and its fallback are not modelled, so the array is a parameter.
- Fetching and parsing problem pages, loading autocomplete data, clipboard and window calls: I/O. The library entries are a parameter of `Hints.PythonHint`.
- Timers, `setInterval`, debounce and Alt-key buffering: event timing. The stopwatch's elapsed seconds are a parameter of `Timer.TimerDisplay`.
- Local storage, IndexedDB and the backup routines (`local-storage.js`, `localStorage` in `app.js` and `auth.js`): browser stores. `firebase-sync.js` is not part of this model: it holds a status indicator and no-op stubs.
- Google Identity Services calls, the polling and timeout of `initGoogleAuth` and its session restore, and `updateAuthUI`: a foreign library and the user interface.
- `atob`, `decodeURIComponent` and `JSON.parse` inside `decodeJwtPayload` become the `parse` parameter, which returns no payload on malformed input. A decode error is reported as an outcome rather than thrown.
- What a callback does is left out. In particular, a callback that itself registers callbacks or signs out during notification is not modelled. Whether a callback throws is a parameter.
- Regular expressions that are heuristics are uninterpreted predicates. Their exact JavaScript semantics are not modelled.
- Hints.PythonHint: `toLowerCase` is modelled on ASCII letters only, and lengths count characters rather than UTF-16 code units.
- Complexity.DefinitionBody: the corrected test works on lines and is stated beside the analysis, which keeps the test as written. A method call `obj.name(` inside the body still counts as a call, and a string or comment that mentions `name(` does too.
- Navigation.GoToLine: `lineNum` is an integer. A non-numeric line number from an error message is not modelled, and the document is assumed to hold at least one line, as the editor always does.

## Findings

| source | as written | input that shows it | evidently intended | confidence | as-written member | corrected member |
|---|---|---|---|---|---|---|
| app.js:811-814 | Placeholders are replaced in increasing order with `split`/`join`, so pass 1 also rewrites the `` `1 `` at the start of `` `10 `` | ten arguments and the code `` `10 ``: the result is the first argument followed by `0` | each placeholder replaced by its own argument, `` `10 `` by the tenth | high, not executed | `Snippets.TenthPlaceholderAsWritten` | `Snippets.TenthPlaceholderCorrected` |
| app.js:1463-1467 | The body searched for `name(` starts at the definition line itself, which always contains `name(`, and runs to the end of the program | `def f(x):\n    return x`, or `def solve():\n    x = 1\nsolve()`: reported as a recursive function | search only the function's body, the indented lines after the definition, for a call `name(` not preceded by a word character | high, not executed | `Complexity.EveryDefinitionRecursive` | `Complexity.DefinitionBody` |
| app.js:1592 | The dedent loop never pops on a line that starts with `for` or `while`, so a loop after a sibling loop stays nested | `for i in a:` / `    x` / `for j in b:`: the third line is labelled `n²` | the second loop labelled `n`, with open loops strictly more indented | high, not executed | `LineComplexity.SiblingLoopsNested` | `LineComplexity.SiblingLoopsCorrected` |
| app.js:1620-1633 | The list-creation test `=\s*\[` comes before the two-dimensional test, so a nested-list assignment never reaches it | `grid = [[0] * m for _ in range(n)]`: space labelled `n` | space labelled `n²` | medium, not executed | `LineComplexity.NestedListLinear` | `LineComplexity.NestedListQuadratic` |
| app.js:1703 | The new id is the number of cases plus one, which an existing case may already carry after a deletion | cases 1, 2, 3; delete 1; add: the new case and the old third case both have id 3, and deleting one deletes both | a fresh id | high, not executed | `TestCases.IdCollision` | `TestCases.NextIdKeepsDistinct` |

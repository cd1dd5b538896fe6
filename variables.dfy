/** The variable panel's scanner (app.js, `parseVariables` and `getTypeIcon`): every
    line of the program that looks like `name = value` introduces a variable, typed
    by a look at the value's text. */
module Variables {
  import opened Strings

  datatype VarType = ListType | IntType | StrType | DictType | FloatType | OtherType

  datatype Variable = Variable(name: string, vtype: VarType)

  /** Loop counters and `self` are never shown. */
  const Skipped: seq<string> := ["t", "i", "j", "k", "_", "self"]

  predicate IsNameStart(c: char) {
    ('a' <= c <= 'z') || ('A' <= c <= 'Z') || c == '_'
  }

  /** `[a-zA-Z_]\w*` */
  predicate IsIdentifier(s: string) {
    s != [] && IsNameStart(s[0]) && forall i :: 0 <= i < |s| ==> IsWordChar(s[i])
  }

  /** Text that a regular expression's `.+` can match. */
  predicate NoLineTerminator(s: string) {
    forall i :: 0 <= i < |s| ==> !IsLineTerminator(s[i])
  }

  /** The match of `/^\s*([a-zA-Z_]\w*)\s*=\s*(.+)$/` against one line: the name and
      the value text. When only white space follows `=`, the greedy `\s*` gives its
      last character back to `(.+)`, so the value is that one character. */
  function MatchAssignment(line: string): Option<(string, string)> {
    MatchName(line[LeadingSpaces(line)..])
  }

  /** `([a-zA-Z_]\w*)` and the rest of the pattern, after the leading blanks. */
  function MatchName(rest: string): Option<(string, string)> {
    if rest == [] || !IsNameStart(rest[0]) then None
    else
      var n := WordRun(rest);
      MatchEquals(rest[..n], rest[n..])
  }

  /** `\s*=` after the name. */
  function MatchEquals(name: string, after: string): Option<(string, string)> {
    var b := LeadingSpaces(after);
    if b == |after| || after[b] != '=' then None
    else MatchValue(name, after[b + 1..])
  }

  /** `\s*(.+)$` after the `=`. */
  function MatchValue(name: string, tail: string): Option<(string, string)> {
    var c := LeadingSpaces(tail);
    var value := if c < |tail| then tail[c..] else if c > 0 then tail[c - 1..] else [];
    if value != [] && NoLineTerminator(value) then Some((name, value)) else None
  }

  /** The type the panel shows for a value, by the first rule that applies:
      a list, an integer, a string, a dictionary, a float, anything else. */
  function ValueType(value: string): VarType {
    var t := Trim(value);
    if Contains(value, "list(") || StartsWith(value, "[") then ListType
    else if Contains(value, "int(") || (t != [] && AllDigits(t)) then IntType
    else if Contains(value, "input()") || StartsWith(value, "\"") || StartsWith(value, "'") then StrType
    else if StartsWith(value, "{") then DictType
    else if Contains(value, "float(") || IsDecimalFraction(t) then FloatType
    else OtherType
  }

  /** `/^\d+\.\d+$/` */
  predicate IsDecimalFraction(t: string) {
    var k := DigitRun(t);
    0 < k < |t| - 1 && t[k] == '.' && AllDigits(t[k + 1..])
  }

  /** The match of every line, in order. */
  function Matches(lines: seq<string>): (ms: seq<Option<(string, string)>>)
    ensures |ms| == |lines|
  {
    if lines == [] then [] else Matches(lines[..|lines| - 1]) + [MatchAssignment(lines[|lines| - 1])]
  }

  lemma {:induction false} MatchesAt(lines: seq<string>, j: int)
    requires 0 <= j < |lines|
    ensures Matches(lines)[j] == MatchAssignment(lines[j])
    decreases |lines|
  {
    if j < |lines| - 1 {
      var init := lines[..|lines| - 1];
      MatchesAt(init, j);
      assert init[j] == lines[j];
    }
  }

  /** The name an assignment binds. */
  function NameOf(m: Option<(string, string)>): Option<string> {
    if m.Some? then Some(m.value.0) else None
  }

  /** An assignment to a name the panel shows. */
  predicate Tracked(m: Option<(string, string)>) {
    m.Some? && m.value.0 !in Skipped
  }

  /** The first match at or after `k` that assigns `name`, or -1. */
  function FirstAssignmentFrom(ms: seq<Option<(string, string)>>, name: string, k: nat): (r: int)
    requires k <= |ms|
    ensures r == -1 || (k <= r < |ms| && NameOf(ms[r]) == Some(name))
    ensures forall j :: k <= j < |ms| && (r == -1 || j < r) ==> NameOf(ms[j]) != Some(name)
    decreases |ms| - k
  {
    if k == |ms| then -1
    else if NameOf(ms[k]) == Some(name) then k
    else FirstAssignmentFrom(ms, name, k + 1)
  }

  /** The first line that assigns `name`, or -1. */
  function FirstAssignment(ms: seq<Option<(string, string)>>, name: string): int {
    FirstAssignmentFrom(ms, name, 0)
  }

  /** What the scan has established after the first `i` lines: every variable is
      tracked and typed by its first assignment, which lies before line `i`; the
      variables are in the order of their first assignments; and every tracked
      assignment before line `i` has its variable. */
  predicate ScannedUpTo(ms: seq<Option<(string, string)>>, vars: seq<Variable>, i: int) {
    0 <= i <= |ms| && TypedBefore(ms, vars, i) && InFirstOrder(ms, vars) && Covered(ms, vars, i)
  }

  predicate TypedBefore(ms: seq<Option<(string, string)>>, vars: seq<Variable>, i: int) {
    forall p :: 0 <= p < |vars| ==>
      var f := FirstAssignment(ms, vars[p].name);
      vars[p].name !in Skipped && 0 <= f < i &&
      ms[f].Some? && vars[p].vtype == ValueType(ms[f].value.1)
  }

  predicate InFirstOrder(ms: seq<Option<(string, string)>>, vars: seq<Variable>) {
    forall p, q :: 0 <= p < q < |vars| ==>
      FirstAssignment(ms, vars[p].name) < FirstAssignment(ms, vars[q].name)
  }

  predicate Covered(ms: seq<Option<(string, string)>>, vars: seq<Variable>, i: int)
    requires i <= |ms|
  {
    forall j :: 0 <= j < i && Tracked(ms[j]) ==> ms[j].value.0 in Names(vars)
  }

  /** The variables of `code`, one per tracked name, in the order their first
      assignments appear, each typed by the value of that first assignment. */
  method ParseVariables(code: string) returns (vars: seq<Variable>)
    ensures var ms := Matches(Split(code, '\n'));
      forall p :: 0 <= p < |vars| ==>
        var f := FirstAssignment(ms, vars[p].name);
        vars[p].name !in Skipped && 0 <= f < |ms| &&
        ms[f].Some? && vars[p].vtype == ValueType(ms[f].value.1)
    ensures var ms := Matches(Split(code, '\n'));
      forall p, q :: 0 <= p < q < |vars| ==>
        FirstAssignment(ms, vars[p].name) < FirstAssignment(ms, vars[q].name)
    ensures forall p, q :: 0 <= p < q < |vars| ==> vars[p].name != vars[q].name
    ensures var ms := Matches(Split(code, '\n'));
      forall i :: 0 <= i < |ms| && Tracked(ms[i]) ==>
        exists p :: 0 <= p < |vars| && vars[p].name == ms[i].value.0
  {
    var lines := Split(code, '\n');
    ghost var ms := Matches(lines);
    vars := [];
    var seen: set<string> := {};
    for i := 0 to |lines|
      invariant seen == Names(vars)
      invariant ScannedUpTo(ms, vars, i)
    {
      var m := MatchLine(lines, i);
      if m.Some? {
        var name := m.value.0;
        var value := m.value.1;
        if !(name in Skipped || name in seen) {
          var vtype := ValueType(value);
          ScanAdds(ms, vars, i);
          seen := seen + {name};
          vars := vars + [Variable(name, vtype)];
        } else {
          ScanKeeps(ms, vars, i);
        }
      } else {
        ScanKeeps(ms, vars, i);
      }
    }
    ScanDone(ms, vars);
  }

  /** A line that assigns a new tracked name adds its variable. */
  lemma ScanAdds(ms: seq<Option<(string, string)>>, vars: seq<Variable>, i: int)
    requires ScannedUpTo(ms, vars, i) && i < |ms|
    requires Tracked(ms[i]) && ms[i].value.0 !in Names(vars)
    ensures var v := Variable(ms[i].value.0, ValueType(ms[i].value.1));
      Names(vars + [v]) == Names(vars) + {v.name} && ScannedUpTo(ms, vars + [v], i + 1)
  {
    var name := ms[i].value.0;
    var v := Variable(name, ValueType(ms[i].value.1));
    NamesAppend(vars, v);
    FirstHere(ms, vars, i);
    TypedAppend(ms, vars, v, i);
    OrderAppend(ms, vars, v, i);
  }

  lemma TypedAppend(ms: seq<Option<(string, string)>>, vars: seq<Variable>, v: Variable, i: int)
    requires 0 <= i < |ms| && TypedBefore(ms, vars, i) && Tracked(ms[i])
    requires v == Variable(ms[i].value.0, ValueType(ms[i].value.1)) && FirstAssignment(ms, v.name) == i
    ensures TypedBefore(ms, vars + [v], i + 1)
  {
    var vars' := vars + [v];
    assert forall p :: 0 <= p < |vars| ==> vars'[p] == vars[p];
    assert vars'[|vars|] == v;
  }

  lemma OrderAppend(ms: seq<Option<(string, string)>>, vars: seq<Variable>, v: Variable, i: int)
    requires TypedBefore(ms, vars, i) && InFirstOrder(ms, vars) && FirstAssignment(ms, v.name) == i
    ensures InFirstOrder(ms, vars + [v])
  {
    var vars' := vars + [v];
    assert forall p :: 0 <= p < |vars| ==> vars'[p] == vars[p];
    assert vars'[|vars|] == v;
  }

  /** A tracked name not seen before line `i` is first assigned on line `i`. */
  lemma FirstHere(ms: seq<Option<(string, string)>>, vars: seq<Variable>, i: int)
    requires ScannedUpTo(ms, vars, i) && i < |ms|
    requires Tracked(ms[i]) && ms[i].value.0 !in Names(vars)
    ensures FirstAssignment(ms, ms[i].value.0) == i
  {
    var name := ms[i].value.0;
    forall j | 0 <= j < i
      ensures NameOf(ms[j]) != Some(name)
    {
      if NameOf(ms[j]) == Some(name) {
        assert Tracked(ms[j]);
      }
    }
  }

  /** Any other line leaves the variables as they are. */
  lemma ScanKeeps(ms: seq<Option<(string, string)>>, vars: seq<Variable>, i: int)
    requires ScannedUpTo(ms, vars, i) && i < |ms|
    requires Tracked(ms[i]) ==> ms[i].value.0 in Names(vars)
    ensures ScannedUpTo(ms, vars, i + 1)
  {
  }

  /** After the last line, the scan's facts are the scanner's promise. */
  lemma ScanDone(ms: seq<Option<(string, string)>>, vars: seq<Variable>)
    requires ScannedUpTo(ms, vars, |ms|)
    ensures forall p, q :: 0 <= p < q < |vars| ==> vars[p].name != vars[q].name
    ensures forall i :: 0 <= i < |ms| && Tracked(ms[i]) ==>
      exists p :: 0 <= p < |vars| && vars[p].name == ms[i].value.0
  {
    forall i | 0 <= i < |ms| && Tracked(ms[i])
      ensures exists p :: 0 <= p < |vars| && vars[p].name == ms[i].value.0
    {
      InNames(vars, ms[i].value.0);
    }
  }

  /** Matches line `i` of `lines` against the assignment pattern. */
  method MatchLine(lines: seq<string>, i: int) returns (m: Option<(string, string)>)
    requires 0 <= i < |lines|
    ensures m == Matches(lines)[i]
  {
    m := MatchAssignment(lines[i]);
    MatchesAt(lines, i);
  }

  /** The names of a list of variables. */
  function Names(vars: seq<Variable>): set<string> {
    if vars == [] then {} else Names(vars[..|vars| - 1]) + {vars[|vars| - 1].name}
  }

  lemma NamesAppend(vars: seq<Variable>, v: Variable)
    ensures Names(vars + [v]) == Names(vars) + {v.name}
  {
    assert (vars + [v])[..|vars|] == vars;
  }

  lemma {:induction false} InNames(vars: seq<Variable>, x: string)
    ensures x in Names(vars) <==> exists p :: 0 <= p < |vars| && vars[p].name == x
    decreases |vars|
  {
    if vars != [] {
      var init := vars[..|vars| - 1];
      InNames(init, x);
      if x in Names(init) {
        var p :| 0 <= p < |init| && init[p].name == x;
        assert vars[p].name == x;
      }
      if exists p :: 0 <= p < |vars| && vars[p].name == x {
        var p :| 0 <= p < |vars| && vars[p].name == x;
        if p < |init| {
          assert init[p].name == x;
        }
      }
    }
  }

  /** `getTypeIcon`: the panel's badge for a type name the scanner produces (`?` for
      `other`). Names that are members of `Object.prototype`, such as `toString`, are
      never produced and are not modelled. */
  function TypeIcon(typeName: string): string {
    if typeName == "list" then "[]"
    else if typeName == "int" then "#"
    else if typeName == "str" then "Aa"
    else if typeName == "dict" then "{:}"
    else if typeName == "set" then "{}"
    else if typeName == "float" then ".0"
    else "?"
  }

  /** The name a scanned type carries in the panel. */
  function TypeName(t: VarType): string {
    match t
    case ListType => "list"
    case IntType => "int"
    case StrType => "str"
    case DictType => "dict"
    case FloatType => "float"
    case OtherType => "other"
  }

  /** Different scanned types never share a badge, and only `other` falls back to `?`. */
  lemma TypeIconsDistinct(t: VarType, u: VarType)
    ensures t != u ==> TypeIcon(TypeName(t)) != TypeIcon(TypeName(u))
    ensures TypeIcon(TypeName(t)) == "?" <==> t == OtherType
  {
  }

  // ---------------------------------------------------------------------------
  // The assignment pattern, read back from the text it matches

  predicate IsSuffix(v: string, s: string) {
    |v| <= |s| && s[|s| - |v|..] == v
  }

  lemma SuffixOfSlice(v: string, s: string, k: int)
    requires 0 <= k <= |s| && IsSuffix(v, s[k..])
    ensures IsSuffix(v, s)
  {
    assert s[k..][|s| - k - |v|..] == s[|s| - |v|..];
  }

  /** What a match promises: an identifier for the name, and for the value a
      non-empty text without line terminators that ends the line. */
  lemma MatchSound(line: string)
    ensures var r := MatchAssignment(line);
      r.Some? ==> IsIdentifier(r.value.0) && r.value.1 != [] &&
                  NoLineTerminator(r.value.1) && IsSuffix(r.value.1, line)
  {
    var a := LeadingSpaces(line);
    NameSound(line[a..]);
    if MatchName(line[a..]).Some? {
      SuffixOfSlice(MatchName(line[a..]).value.1, line, a);
    }
  }

  lemma NameSound(rest: string)
    ensures var r := MatchName(rest);
      r.Some? ==> IsIdentifier(r.value.0) && r.value.1 != [] &&
                  NoLineTerminator(r.value.1) && IsSuffix(r.value.1, rest)
  {
    if rest != [] && IsNameStart(rest[0]) {
      var n := WordRun(rest);
      EqualsSound(rest[..n], rest[n..]);
      if MatchName(rest).Some? {
        SuffixOfSlice(MatchName(rest).value.1, rest, n);
      }
    }
  }

  lemma EqualsSound(name: string, after: string)
    ensures var r := MatchEquals(name, after);
      r.Some? ==> r.value.0 == name && r.value.1 != [] &&
                  NoLineTerminator(r.value.1) && IsSuffix(r.value.1, after)
  {
    var b := LeadingSpaces(after);
    if b < |after| && after[b] == '=' {
      ValueSound(name, after[b + 1..]);
      if MatchEquals(name, after).Some? {
        SuffixOfSlice(MatchEquals(name, after).value.1, after, b + 1);
      }
    }
  }

  lemma ValueSound(name: string, tail: string)
    ensures var r := MatchValue(name, tail);
      r.Some? ==> r.value.0 == name && r.value.1 != [] &&
                  NoLineTerminator(r.value.1) && IsSuffix(r.value.1, tail)
  {
  }

  lemma SkipBlanks(w: string, rest: string)
    requires AllSpace(w) && (rest == [] || !IsSpace(rest[0]))
    ensures MatchAssignment(w + rest) == MatchName(rest)
  {
    LeadingSpacesOf(w, rest);
    assert (w + rest)[|w|..] == rest;
  }

  lemma ReadName(name: string, after: string)
    requires IsIdentifier(name) && (after == [] || !IsWordChar(after[0]))
    ensures MatchName(name + after) == MatchEquals(name, after)
  {
    WordRunOf(name, after);
    assert (name + after)[..|name|] == name;
    assert (name + after)[|name|..] == after;
  }

  lemma ReadEquals(name: string, w: string, tail: string)
    requires AllSpace(w)
    ensures MatchEquals(name, w + "=" + tail) == MatchValue(name, tail)
  {
    var after := w + "=" + tail;
    assert after == w + ("=" + tail);
    LeadingSpacesOf(w, "=" + tail);
    assert after[|w|] == '=';
    assert after[|w| + 1..] == tail;
  }

  /** Any line of the form `<space>name<space>=<space>value`, with a value that does
      not start with white space, matches with exactly that name and value. */
  lemma AssignmentRoundTrip(w1: string, name: string, w2: string, w3: string, value: string)
    requires AllSpace(w1) && AllSpace(w2) && AllSpace(w3)
    requires IsIdentifier(name)
    requires value != [] && !IsSpace(value[0]) && NoLineTerminator(value)
    ensures MatchAssignment(w1 + name + w2 + "=" + w3 + value) == Some((name, value))
  {
    var tail := w3 + value;
    var after := w2 + ("=" + tail);
    var rest := name + after;
    LayoutValue(w1, name, w2, w3, value);
    calc {
      MatchAssignment(w1 + name + w2 + "=" + w3 + value);
      MatchAssignment(w1 + rest);
      { SkipBlanks(w1, rest); }
      MatchName(rest);
      { ReadName(name, after); }
      MatchEquals(name, after);
      { ReadEquals(name, w2, tail); Layout2(w2, tail); }
      MatchValue(name, tail);
      { ValueAfterBlanks(name, w3, value); }
      Some((name, value));
    }
  }

  lemma LayoutValue(w1: string, name: string, w2: string, w3: string, value: string)
    ensures w1 + name + w2 + "=" + w3 + value == w1 + (name + (w2 + ("=" + (w3 + value))))
  {
  }

  /** Blanks before a value that starts with something else are skipped. */
  lemma ValueAfterBlanks(name: string, w: string, value: string)
    requires AllSpace(w)
    requires value != [] && !IsSpace(value[0]) && NoLineTerminator(value)
    ensures MatchValue(name, w + value) == Some((name, value))
  {
    LeadingSpacesOf(w, value);
    assert (w + value)[|w|..] == value;
  }

  /** When nothing but white space follows `=`, the value is its last character,
      provided that character is not a line terminator. */
  lemma BlankValue(w1: string, name: string, w2: string, w3: string)
    requires AllSpace(w1) && AllSpace(w2) && AllSpace(w3)
    requires IsIdentifier(name)
    requires w3 != [] && !IsLineTerminator(w3[|w3| - 1])
    ensures MatchAssignment(w1 + name + w2 + "=" + w3) == Some((name, [w3[|w3| - 1]]))
  {
    var after := w2 + ("=" + w3);
    var rest := name + after;
    Layout(w1, name, w2, w3);
    calc {
      MatchAssignment(w1 + name + w2 + "=" + w3);
      MatchAssignment(w1 + rest);
      { SkipBlanks(w1, rest); }
      MatchName(rest);
      { ReadName(name, after); }
      MatchEquals(name, after);
      { ReadEquals(name, w2, w3); Layout2(w2, w3); }
      MatchValue(name, w3);
      { BlankTail(name, w3); }
      Some((name, [w3[|w3| - 1]]));
    }
  }

  lemma Layout(w1: string, name: string, w2: string, tail: string)
    ensures w1 + name + w2 + "=" + tail == w1 + (name + (w2 + ("=" + tail)))
  {
  }

  lemma Layout2(w2: string, tail: string)
    ensures w2 + "=" + tail == w2 + ("=" + tail)
  {
  }

  lemma BlankTail(name: string, w: string)
    requires AllSpace(w) && w != [] && !IsLineTerminator(w[|w| - 1])
    ensures MatchValue(name, w) == Some((name, [w[|w| - 1]]))
  {
    LeadingSpacesOf(w, []);
    assert w + [] == w;
    assert w[|w| - 1..] == [w[|w| - 1]];
  }

  /** A line that ends right after `=` assigns nothing. */
  lemma NothingAfterEquals(w1: string, name: string, w2: string)
    requires AllSpace(w1) && AllSpace(w2)
    requires IsIdentifier(name)
    ensures MatchAssignment(w1 + name + w2 + "=") == None
  {
    var after := w2 + ("=" + []);
    var rest := name + after;
    Layout(w1, name, w2, []);
    assert w1 + name + w2 + "=" + [] == w1 + name + w2 + "=";
    calc {
      MatchAssignment(w1 + name + w2 + "=");
      MatchAssignment(w1 + rest);
      { SkipBlanks(w1, rest); }
      MatchName(rest);
      { ReadName(name, after); }
      MatchEquals(name, after);
      { ReadEquals(name, w2, []); Layout2(w2, []); }
      MatchValue(name, []);
      None;
    }
  }

  // ---------------------------------------------------------------------------
  // What the type rules make of common values

  /** Trimming drops only the white space appended after a trimmed text. */
  lemma TrimPadded(s: string, w: string)
    requires s != [] && NoSpaceAtEnds(s) && AllSpace(w)
    ensures Trim(s + w) == s
  {
    var t := Trim(s + w);
    var a := LeadingSpaces(s + w);
    TrimDrops(s + w);
    assert (s + w)[0] == s[0] && (s + w)[|s| - 1] == s[|s| - 1];
    assert t == (s + w)[..|s|];
  }

  lemma DigitsNoSpace(s: string)
    requires s != [] && AllDigits(s)
    ensures NoSpaceAtEnds(s)
  {
  }

  lemma DigitsLack(s: string, p: string)
    requires AllDigits(s) && p != [] && !IsDigit(p[0])
    ensures !Contains(s, p) && !StartsWith(s, p)
  {
    assert forall r :: 0 <= r < |s| ==> s[r] != p[0];
  }

  /** A number written in decimal, with or without trailing blanks, is an `int`. */
  lemma IntLiteral(n: nat, w: string)
    requires AllSpace(w)
    ensures ValueType(NatToString(n) + w) == IntType
  {
    var s := NatToString(n);
    var v := s + w;
    DigitsNoSpace(s);
    TrimPadded(s, w);
    assert StartsWith(v, "[") <==> StartsWith(s, "[");
    DigitsLack(s, "[");
    NotInPadded(s, w, "list(");
  }

  /** A text made of digits and blanks contains no pattern that starts with a letter. */
  lemma NotInPadded(s: string, w: string, p: string)
    requires AllDigits(s) && AllSpace(w)
    requires p != [] && !IsDigit(p[0]) && !IsSpace(p[0])
    ensures !Contains(s + w, p)
  {
    assert forall r :: 0 <= r < |s + w| ==> (s + w)[r] != p[0];
  }

  /** `a.b` with decimal `a` and `b` is a `float`. */
  lemma FloatLiteral(a: nat, b: nat)
    ensures ValueType(NatToString(a) + "." + NatToString(b)) == FloatType
  {
    var x, y := NatToString(a), NatToString(b);
    FractionShape(x, y);
    FractionType(x + "." + y);
  }

  lemma FractionType(v: string)
    requires Trim(v) == v && !AllDigits(v) && IsDecimalFraction(v)
    requires forall i :: 0 <= i < |v| ==> IsDigit(v[i]) || v[i] == '.'
    ensures ValueType(v) == FloatType
  {
    NoWordIn(v, "list(");
    NoWordIn(v, "int(");
    NoWordIn(v, "input()");
    NoWordIn(v, "float(");
  }

  /** Digits, a point and digits: no blanks at the ends, not all digits, and
      `/^\d+\.\d+$/` holds. */
  lemma FractionShape(x: string, y: string)
    requires x != [] && y != [] && AllDigits(x) && AllDigits(y)
    ensures var v := x + "." + y;
      Trim(v) == v && !AllDigits(v) && IsDecimalFraction(v) &&
      v[0] == x[0] && forall i :: 0 <= i < |v| ==> IsDigit(v[i]) || v[i] == '.'
  {
    var v := x + "." + y;
    FractionChars(x, y);
    assert NoSpaceAtEnds(v);
    FractionRun(x, y);
  }

  lemma FractionChars(x: string, y: string)
    requires x != [] && y != [] && AllDigits(x) && AllDigits(y)
    ensures var v := x + "." + y;
      |v| == |x| + 1 + |y| && v[0] == x[0] && v[|v| - 1] == y[|y| - 1] && v[|x|] == '.' &&
      forall i :: 0 <= i < |v| ==> IsDigit(v[i]) || v[i] == '.'
  {
    var v := x + "." + y;
    forall i | 0 <= i < |v|
      ensures IsDigit(v[i]) || v[i] == '.'
    {
      if i < |x| {
        assert v[i] == x[i];
      } else if i > |x| {
        assert v[i] == y[i - |x| - 1];
      }
    }
  }

  lemma FractionRun(x: string, y: string)
    requires x != [] && y != [] && AllDigits(x) && AllDigits(y)
    ensures IsDecimalFraction(x + "." + y)
  {
    var v := x + "." + y;
    assert v == x + ("." + y);
    DigitRunAppend(x, "." + y);
    DigitRunAll(x);
    assert v[|x|] == '.';
    assert v[|x| + 1..] == y;
  }

  /** Text made of digits and points contains no word that starts with a letter. */
  lemma NoWordIn(v: string, p: string)
    requires forall i :: 0 <= i < |v| ==> IsDigit(v[i]) || v[i] == '.'
    requires p != [] && 'a' <= p[0] <= 'z'
    ensures !Contains(v, p)
  {
    assert forall r :: 0 <= r < |v| ==> v[r] != p[0];
  }
}

/** Jumping to a line from an error message (app.js, `goToLine`): the requested
    1-based line number is clamped into the document and the cursor is put at the
    start or at the end of that line. */
module Navigation {

  /** `Math.min(Math.max(1, lineNum), totalLines) - 1`: the 0-based target line. */
  function TargetLine(lineNum: int, totalLines: nat): (r: int)
    ensures totalLines >= 1 ==> 0 <= r < totalLines
    ensures 1 <= lineNum <= totalLines ==> r == lineNum - 1
    ensures lineNum < 1 && totalLines >= 1 ==> r == 0
    ensures lineNum > totalLines ==> r == totalLines - 1
  {
    var atLeastOne := if lineNum > 1 then lineNum else 1;
    (if atLeastOne < totalLines then atLeastOne else totalLines) - 1
  }

  /** A cursor position: 0-based line and column. */
  datatype Position = Position(line: nat, ch: nat)

  /** The cursor the jump sets in a document of lines `doc` (never empty, as an
      editor always holds at least one line). */
  function GoToLine(doc: seq<string>, lineNum: int, goToEnd: bool): (p: Position)
    requires |doc| >= 1
    ensures p.line == TargetLine(lineNum, |doc|) && p.line < |doc|
    ensures p.ch == (if goToEnd then |doc[p.line]| else 0)
  {
    var target := TargetLine(lineNum, |doc|);
    Position(target, if goToEnd then |doc[target]| else 0)
  }

  /** Clamping is idempotent: jumping to the line reached lands on it again. */
  lemma TargetLineIdempotent(lineNum: int, totalLines: nat)
    requires totalLines >= 1
    ensures TargetLine(TargetLine(lineNum, totalLines) + 1, totalLines) == TargetLine(lineNum, totalLines)
  {
  }

  /** A larger line number never lands on an earlier line. */
  lemma TargetLineMonotone(a: int, b: int, totalLines: nat)
    requires a <= b
    ensures TargetLine(a, totalLines) <= TargetLine(b, totalLines)
  {
  }
}
